/** The reader as it runs: cursors moved by loops, an iterator object, a decoder that fills a buffer. */
module JsonReader {
  import opened Bytes
  import opened Utf8
  import opened Json
  import opened JsonReparse
  import opened JsonString
  import opened JsonLookup

  method SkipBlanks(s: seq<byte>, start: nat, end: nat) returns (cursor: nat)
    requires start <= end <= |s|
    ensures cursor == SkipSpace(s, start, end)
  {
    cursor := start;
    while cursor < end && IsSpace(s[cursor])
      invariant start <= cursor <= end && SkipSpace(s, cursor, end) == SkipSpace(s, start, end)
    {
      cursor := cursor + 1;
    }
  }

  method ParseStringEnd(s: seq<byte>, start: nat, end: nat) returns (after: Option<nat>)
    requires start <= end <= |s|
    ensures after == ParseString(s, start, end)
  {
    if start >= end || s[start] != QUOTE {
      return None;
    }
    var cursor := start + 1;
    while cursor < end
      invariant start < cursor <= end && ScanString(s, cursor, end) == ScanString(s, start + 1, end)
    {
      var character := s[cursor];
      if character == QUOTE {
        return Some(cursor + 1);
      }
      if character < 0x20 {
        return None;
      }
      cursor := cursor + 1;
      if character == BACKSLASH {
        if cursor >= end {
          return None;
        }
        character := s[cursor];
        if IsEscape(character) {
          cursor := cursor + 1;
        } else if character == LETTER_U && end - (cursor + 1) >= 4 && HexQuad(s, cursor + 1) {
          cursor := cursor + 5;
        } else {
          return None;
        }
      }
    }
    return None;
  }

  function Extent(n: Option<Node>): Option<Value>
  {
    if n.None? then None else Some(n.value.extent)
  }

  function Closed(p: Option<Parts>): Option<nat>
  {
    if p.None? then None else Some(p.value.after)
  }

  method ParseValueInternal(s: seq<byte>, cursor: nat, end: nat, depth: nat) returns (r: Option<Value>)
    requires cursor <= end <= |s|
    ensures r == Extent(ParseValue(s, cursor, end, depth))
    decreases end - cursor, 0
  {
    var start := SkipBlanks(s, cursor, end);
    if start >= end || depth > MAX_DEPTH {
      return None;
    }
    if s[start] == QUOTE {
      var after := ParseStringEnd(s, start, end);
      return if after.None? then None else Some(Value(start, after.value, String));
    }
    if s[start] == OPEN_BRACE || s[start] == OPEN_BRACKET {
      var braces := s[start] == OPEN_BRACE;
      var kind := if braces then Object else Array;
      var first := SkipBlanks(s, start + 1, end);
      if first < end && s[first] == Closing(braces) {
        return Some(Value(start, first + 1, kind));
      }
      var after := ParseRest(s, first, end, depth, braces);
      return if after.None? then None else Some(Value(start, after.value, kind));
    }
    r := Extent(ParseAtom(s, start, end));
  }

  lemma PartsUnfold(s: seq<byte>, i: nat, end: nat, depth: nat, braces: bool)
    requires i <= end <= |s|
    ensures Closed(ParseParts(s, i, end, depth, braces))
            == match ParsePart(s, i, end, depth, braces)
               case None => None
               case Some(part) =>
                 if part.next >= end then None
                 else if s[part.next] == COMMA then Closed(ParseParts(s, part.next + 1, end, depth, braces))
                 else if s[part.next] == Closing(braces) then Some(part.next + 1)
                 else None
  {
    hide ParsePart;
  }

  /** One member or element: where the byte behind it stands. */
  method ParsePartEnd(s: seq<byte>, current: nat, end: nat, depth: nat, braces: bool) returns (next: Option<nat>)
    requires current <= end <= |s|
    ensures var part := ParsePart(s, current, end, depth, braces);
            next == if part.None? then None else Some(part.value.next)
    decreases end - current, 1
  {
    hide ParseValue, ParseKey, SkipSpace;
    var at := current;
    if braces {
      var colon := ParseKeyEnd(s, current, end);
      if colon.None? {
        return None;
      }
      at := colon.value;
    }
    var child := ParseValueInternal(s, at, end, depth + 1);
    if child.None? {
      return None;
    }
    var behind := SkipBlanks(s, child.value.end, end);
    return Some(behind);
  }

  /** The member or element loop, to the position after the closing bracket. */
  method ParseRest(s: seq<byte>, first: nat, end: nat, depth: nat, braces: bool) returns (after: Option<nat>)
    requires first <= end <= |s|
    ensures after == Closed(ParseParts(s, first, end, depth, braces))
    decreases end - first, 2
  {
    hide ParseParts, ParsePart;
    var current := first;
    while true
      invariant first <= current <= end
      invariant Closed(ParseParts(s, current, end, depth, braces)) == Closed(ParseParts(s, first, end, depth, braces))
      decreases end - current
    {
      PartsUnfold(s, current, end, depth, braces);
      var next := ParsePartEnd(s, current, end, depth, braces);
      if next.None? || next.value >= end {
        return None;
      }
      if s[next.value] == COMMA {
        current := next.value + 1;
      } else if s[next.value] == Closing(braces) {
        return Some(next.value + 1);
      } else {
        return None;
      }
    }
  }

  method ParseKeyEnd(s: seq<byte>, current: nat, end: nat) returns (r: Option<nat>)
    requires current <= end <= |s|
    ensures r == (if ParseKey(s, current, end).None? then None else Some(ParseKey(s, current, end).value.1))
  {
    var start := SkipBlanks(s, current, end);
    var after := ParseStringEnd(s, start, end);
    if after.None? {
      return None;
    }
    var colon := SkipBlanks(s, after.value, end);
    if colon >= end || s[colon] != COLON {
      return None;
    }
    return Some(colon + 1);
  }

  /** parse_retro_vault_json. */
  method ParseJson(s: seq<byte>) returns (r: Option<Value>)
    ensures r == Extent(ParseText(s))
  {
    var value := ParseValueInternal(s, 0, |s|, 0);
    if value.None? {
      return None;
    }
    var rest := SkipBlanks(s, value.value.end, |s|);
    return if rest == |s| then value else None;
  }

  /** The array iterator over the text `s`. */
  class ArrayIterator {
    const s: seq<byte>
    var cursor: nat
    var end: nat
    var finished: bool

    ghost predicate Valid()
      reads this
    {
      cursor <= end <= |s|
    }

    /** What is still to come: None if the iteration will fail. */
    ghost function Remaining(): Option<seq<Value>>
      reads this
      requires Valid()
    {
      if finished then Some([]) else Iterate(s, cursor, end)
    }

    constructor (s: seq<byte>, whole: Value)
      requires whole.kind == Array && whole.start + 1 < whole.end <= |s|
      ensures Valid() && this.s == s && Remaining() == Iterate(s, whole.start + 1, whole.end - 1)
    {
      hide NextItem;
      this.s, cursor, end, finished := s, whole.start + 1, whole.end - 1, false;
    }

    /** Returns 1 and the next element, 0 at the end, or -1. */
    method Next() returns (code: int, value: Value)
      requires Valid()
      modifies this`cursor, this`finished
      ensures Valid() && end == old(end)
      ensures code == -1 ==> old(Remaining()).None?
      ensures code == 0 ==> old(Remaining()) == Some([]) && Remaining() == Some([])
      ensures code == 1 ==>
                if Remaining().None? then old(Remaining()).None?
                else old(Remaining()) == Some([value] + Remaining().value)
      ensures -1 <= code <= 1
    {
      value := Value(0, 0, Null);
      if finished {
        return 0, value;
      }
      ghost var from := cursor;
      NextFromBlank(s, cursor, end);
      IterateFromBlank(s, cursor, end);
      cursor := SkipBlanks(s, cursor, end);
      if cursor >= end {
        IterateAtEnd(s, end);
        finished := true;
        return 0, value;
      }
      var item := ParseValueInternal(s, cursor, end, 0);
      if item.None? {
        return -1, value;
      }
      value := item.value;
      ghost var at := cursor;
      SkipIdempotent(s, from, end);
      cursor := SkipBlanks(s, value.end, end);
      if cursor < end {
        if s[cursor] != COMMA {
          return -1, value;
        }
        cursor := cursor + 1;
        assert NextItem(s, at, end) == Item(value, cursor, false);
      } else {
        assert NextItem(s, at, end) == Item(value, cursor, true);
        assert [value] + [] == [value];
        finished := true;
      }
      IterateUnfold(s, at, end);
      return 1, value;
    }
  }

  /** get_retro_vault_json_member on an object value. */
  method GetMember(s: seq<byte>, container: Value, name: seq<byte>) returns (r: Lookup)
    requires container.start <= container.end <= |s|
    requires container.kind == Object ==> container.start + 1 < container.end
    ensures r == if container.kind != Object then Lookup.Malformed
                 else FindMember(s, container.start + 1, container.end - 1, name)
  {
    hide FindMember;
    if container.kind != Object {
      return Lookup.Malformed;
    }
    var cursor, end := container.start + 1, container.end - 1;
    while true
      invariant cursor <= end <= |s|
      invariant FindMember(s, cursor, end, name) == FindMember(s, container.start + 1, end, name)
      decreases end - cursor
    {
      var answer, next := TryMember(s, cursor, end, name);
      if answer.Some? {
        return answer.value;
      }
      cursor := next;
    }
  }

  /** The lookup behind the colon of a member. */
  function Behind(s: seq<byte>, end: nat, key: Value, colon: nat, name: seq<byte>): Lookup
    requires key.start <= key.end <= colon < end <= |s|
  {
    var member := ParseValue(s, colon + 1, end, 0);
    if member.None? then Lookup.Malformed
    else if key.start + 2 <= key.end && KeyIs(s, Span(key.start, key.end), name) then Found(member.value.extent)
    else
      var next := SkipSpace(s, member.value.extent.end, end);
      if next < end && s[next] == COMMA then FindMember(s, next + 1, end, name)
      else if next == end then Absent
      else Lookup.Malformed
  }

  lemma FindUnfold(s: seq<byte>, cursor: nat, end: nat, name: seq<byte>)
    requires cursor <= end <= |s|
    ensures var at := SkipSpace(s, cursor, end);
            FindMember(s, cursor, end, name)
            == if at >= end then Absent
               else
                 match Extent(ParseValue(s, at, end, 0))
                 case None => Lookup.Malformed
                 case Some(key) =>
                   if key.kind != String then Lookup.Malformed
                   else
                     var colon := SkipSpace(s, key.end, end);
                     if colon >= end || s[colon] != COLON then Lookup.Malformed else Behind(s, end, key, colon, name)
  {
    hide ParseValue, SkipSpace, KeyIs;
  }

  /** One turn of the lookup loop: an answer, or where the next member starts. */
  method TryMember(s: seq<byte>, cursor: nat, end: nat, name: seq<byte>) returns (answer: Option<Lookup>, next: nat)
    requires cursor <= end <= |s|
    ensures answer.Some? ==> FindMember(s, cursor, end, name) == answer.value
    ensures answer.None? ==>
              cursor < next <= end && FindMember(s, cursor, end, name) == FindMember(s, next, end, name)
  {
    hide ParseValue, SkipSpace, KeyIs, FindMember;
    FindUnfold(s, cursor, end, name);
    var at := SkipBlanks(s, cursor, end);
    if at >= end {
      return Some(Absent), end;
    }
    var key := ParseValueInternal(s, at, end, 0);
    if key.None? || key.value.kind != String {
      return Some(Lookup.Malformed), end;
    }
    var colon := SkipBlanks(s, key.value.end, end);
    if colon >= end || s[colon] != COLON {
      return Some(Lookup.Malformed), end;
    }
    var member := ParseValueInternal(s, colon + 1, end, 0);
    if member.None? {
      return Some(Lookup.Malformed), end;
    }
    var matches := StringMatches(s, key.value, name);
    if matches {
      return Some(Found(member.value)), end;
    }
    next := SkipBlanks(s, member.value.end, end);
    if next < end && s[next] == COMMA {
      return None, next + 1;
    }
    return Some(if next == end then Absent else Lookup.Malformed), end;
  }

  /** Decodes a string value into a new buffer as long as the literal, terminator included. */
  method DuplicateString(s: seq<byte>, value: Value) returns (ok: bool, result: array<byte>, size: nat)
    requires value.start <= value.end <= |s|
    ensures fresh(result)
    ensures ok <==> value.kind == String && value.end - value.start >= 2
                    && DecodeFrom(s, value.start + 1, value.end - 1).Some?
    ensures ok ==> result.Length == value.end - value.start && size < result.Length
                   && DecodeFrom(s, value.start + 1, value.end - 1) == Some(result[..size]) && result[size] == 0
  {
    size := 0;
    if value.kind != String || value.end - value.start < 2 {
      result := new byte[0];
      return false, result, 0;
    }
    hide DecodeFrom;
    result := new byte[value.end - value.start];
    var cursor, end := value.start + 1, value.end - 1;
    PrependNothing(DecodeFrom(s, cursor, end));
    assert result[..size] == [];
    while cursor < end
      invariant value.start < cursor <= end && size <= cursor - value.start - 1 && fresh(result)
      invariant Prepend(result[..size], DecodeFrom(s, cursor, end)) == DecodeFrom(s, value.start + 1, end)
    {
      ghost var before, from := result[..size], cursor;
      var unit, next := DecodeUnit(s, cursor, end);
      if unit.None? {
        return false, result, size;
      }
      cursor := next;
      DecodeOne(s, from, cursor, end, unit.value, before);
      CopyInto(result, size, unit.value);
      size := size + |unit.value|;
      assert result[..size] == before + unit.value;
    }
    DecodeEnd(s, end);
    assert result[..size] + [] == result[..size];
    result[size] := 0;
    ok := true;
  }

  lemma PrependNothing(r: Option<seq<byte>>)
    ensures Prepend([], r) == r
  {
    if r.Some? {
      assert [] + r.value == r.value;
    }
  }

  lemma DecodeEnd(s: seq<byte>, end: nat)
    requires end <= |s|
    ensures DecodeFrom(s, end, end) == Some([])
  {
  }

  /** One turn of the decoding loop: the bytes one unit, or one surrogate pair, stands for. */
  method DecodeUnit(s: seq<byte>, start: nat, end: nat) returns (unit: Option<seq<byte>>, cursor: nat)
    requires start < end <= |s|
    ensures unit.None? ==> DecodeFrom(s, start, end).None?
    ensures unit.Some? ==>
              && start < cursor <= end && |unit.value| <= cursor - start
              && DecodeFrom(s, start, end) == Prepend(unit.value, DecodeFrom(s, cursor, end))
  {
    var character := s[start];
    cursor := start + 1;
    if character != BACKSLASH {
      return Some([character]), cursor;
    }
    if cursor >= end {
      return None, cursor;
    }
    character := s[cursor];
    cursor := cursor + 1;
    if IsEscape(character) && character != 0 {
      return Some([EscapeByte(character)]), cursor;
    }
    if character != LETTER_U || end - cursor < 4 || !HexQuad(s, cursor) {
      return None, cursor;
    }
    var codepoint := Quad(s, cursor);
    cursor := cursor + 4;
    if IsHigh(codepoint) && end - cursor >= 6 && s[cursor] == BACKSLASH && s[cursor + 1] == LETTER_U {
      if HexQuad(s, cursor + 2) && IsLow(Quad(s, cursor + 2)) {
        codepoint := Combine(codepoint, Quad(s, cursor + 2));
        cursor := cursor + 6;
      }
    }
    codepoint := Lone(codepoint);
    return Some(Encode(codepoint)), cursor;
  }

  /** Taking one decoded unit off the front does not change the whole. */
  lemma DecodeOne(s: seq<byte>, from: nat, cursor: nat, end: nat, unit: seq<byte>, before: seq<byte>)
    requires from < cursor <= end <= |s| && DecodeFrom(s, from, end) == Prepend(unit, DecodeFrom(s, cursor, end))
    ensures Prepend(before + unit, DecodeFrom(s, cursor, end)) == Prepend(before, DecodeFrom(s, from, end))
  {
    hide DecodeFrom;
    if DecodeFrom(s, cursor, end).Some? {
      var rest := DecodeFrom(s, cursor, end).value;
      assert before + (unit + rest) == (before + unit) + rest;
    }
  }

  method StringMatches(s: seq<byte>, key: Value, name: seq<byte>) returns (matches: bool)
    requires key.start <= key.end <= |s| && key.kind == String
    ensures matches <==> key.start + 2 <= key.end && KeyIs(s, Span(key.start, key.end), name)
  {
    var ok, decoded, size := DuplicateString(s, key);
    if !ok {
      return false;
    }
    matches := CString(decoded[..size]) == name;
  }
}
