/** Iterators and member lookup parse parts of a value again, with a nearer end and the depth restarted.
    That second parse always finds what the first one delimited. */
module JsonReparse {
  import opened Bytes
  import opened Json

  lemma {:induction false} SkipNarrow(s: seq<byte>, i: nat, end: nat, near: nat)
    requires i <= near <= end <= |s|
    ensures SkipSpace(s, i, near) == Min(SkipSpace(s, i, end), near)
    decreases end - i
  {
    if i < near && IsSpace(s[i]) {
      SkipNarrow(s, i + 1, end, near);
    }
  }

  lemma {:induction false} ScanStringNarrow(s: seq<byte>, i: nat, end: nat, near: nat)
    requires i <= end <= |s| && ScanString(s, i, end).Some?
    requires ScanString(s, i, end).value <= near <= end
    ensures ScanString(s, i, near) == ScanString(s, i, end)
    decreases end - i
  {
    if s[i] == QUOTE {
    } else if s[i] != BACKSLASH {
      ScanStringNarrow(s, i + 1, end, near);
    } else if IsEscape(s[i + 1]) {
      ScanStringNarrow(s, i + 2, end, near);
    } else {
      ScanStringNarrow(s, i + 6, end, near);
    }
  }

  lemma {:induction false} ScanNumberNarrow(s: seq<byte>, i: nat, end: nat, near: nat)
    requires i <= end <= |s| && ScanNumber(s, i, end) <= near <= end
    ensures ScanNumber(s, i, near) == ScanNumber(s, i, end)
    decreases end - i
  {
    if i < end && IsNumeric(s[i]) {
      ScanNumberNarrow(s, i + 1, end, near);
    }
  }

  lemma ParseStringNarrow(s: seq<byte>, i: nat, end: nat, near: nat)
    requires i <= end <= |s| && ParseString(s, i, end).Some?
    requires ParseString(s, i, end).value <= near <= end
    ensures ParseString(s, i, near) == ParseString(s, i, end)
  {
    ScanStringNarrow(s, i + 1, end, near);
  }

  lemma ParseAtomNarrow(s: seq<byte>, i: nat, end: nat, near: nat)
    requires i < end <= |s| && ParseAtom(s, i, end).Some?
    requires ParseAtom(s, i, end).value.extent.end <= near <= end
    ensures ParseAtom(s, i, near) == ParseAtom(s, i, end)
  {
    if !IsTrue(s, i, end) && !IsFalse(s, i, end) && !IsNull(s, i, end) {
      ScanNumberNarrow(s, i + 1, end, near);
    }
  }

  lemma ParseKeyNarrow(s: seq<byte>, i: nat, end: nat, near: nat)
    requires i <= end <= |s| && ParseKey(s, i, end).Some?
    requires ParseKey(s, i, end).value.1 <= near <= end
    ensures ParseKey(s, i, near) == ParseKey(s, i, end)
  {
    SkipNarrow(s, i, end, near);
    var key := ParseKey(s, i, end).value.0;
    ParseStringNarrow(s, key.start, end, near);
    SkipNarrow(s, key.end, end, near);
  }

  /** A parsed value is found again wherever the end stands after it, at the same or any smaller depth. */
  lemma {:induction false} ParseValueNarrow(s: seq<byte>, i: nat, end: nat, depth: nat, near: nat, shallow: nat)
    requires i <= end <= |s| && ParseValue(s, i, end, depth).Some?
    requires ParseValue(s, i, end, depth).value.extent.end <= near <= end && shallow <= depth
    ensures ParseValue(s, i, near, shallow) == ParseValue(s, i, end, depth)
    decreases end - i, 0
  {
    hide SkipSpace, ParseString, ParseAtom, ParseParts;
    SkipNarrow(s, i, end, near);
    var start := SkipSpace(s, i, end);
    if s[start] == QUOTE {
      ParseStringNarrow(s, start, end, near);
    } else if s[start] == OPEN_BRACE || s[start] == OPEN_BRACKET {
      var braces := s[start] == OPEN_BRACE;
      var first := SkipSpace(s, start + 1, end);
      SkipNarrow(s, start + 1, end, near);
      if first < end && s[first] == Closing(braces) {
      } else {
        ParsePartsNarrow(s, first, end, depth, braces, near, shallow);
      }
    } else {
      ParseAtomNarrow(s, start, end, near);
    }
  }

  lemma {:induction false} ParsePartNarrow(
      s: seq<byte>, i: nat, end: nat, depth: nat, braces: bool, near: nat, shallow: nat)
    requires i <= end <= |s| && ParsePart(s, i, end, depth, braces).Some?
    requires ParsePart(s, i, end, depth, braces).value.next <= near <= end && shallow <= depth
    ensures ParsePart(s, i, near, shallow, braces) == ParsePart(s, i, end, depth, braces)
    decreases end - i, 1
  {
    hide ParseValue, ParseKey, SkipSpace;
    var part := ParsePart(s, i, end, depth, braces).value;
    var at := i;
    if braces {
      ParseKeyNarrow(s, i, end, near);
      at := ParseKey(s, i, end).value.1;
    }
    ParseValueNarrow(s, at, end, depth + 1, near, shallow + 1);
    SkipNarrow(s, part.item.end, end, near);
  }

  lemma {:induction false} ParsePartsNarrow(
      s: seq<byte>, i: nat, end: nat, depth: nat, braces: bool, near: nat, shallow: nat)
    requires i <= end <= |s| && ParseParts(s, i, end, depth, braces).Some?
    requires ParseParts(s, i, end, depth, braces).value.after <= near <= end && shallow <= depth
    ensures ParseParts(s, i, near, shallow, braces) == ParseParts(s, i, end, depth, braces)
    decreases end - i, 2
  {
    hide ParseValue, ParsePart, ParseKey, SkipSpace;
    var part := ParsePart(s, i, end, depth, braces).value;
    ParsePartNarrow(s, i, end, depth, braces, near, shallow);
    if s[part.next] == COMMA {
      ParsePartsNarrow(s, part.next + 1, end, depth, braces, near, shallow);
    }
  }

  /** A value that its own extent parses to at depth 0: what every slice handed to an iterator or lookup is. */
  ghost predicate Settled(s: seq<byte>, n: Node)
  {
    && n.extent.start <= n.extent.end <= |s|
    && ParseValue(s, n.extent.start, n.extent.end, 0) == Some(n)
  }

  lemma SettledFrom(s: seq<byte>, i: nat, end: nat, depth: nat)
    requires i <= end <= |s| && ParseValue(s, i, end, depth).Some?
    ensures Settled(s, ParseValue(s, i, end, depth).value)
  {
    var n := ParseValue(s, i, end, depth).value;
    ParseValueNarrow(s, i, end, depth, n.extent.end, 0);
    ParseFromBlank(s, i, n.extent.end, 0);
  }

  lemma {:induction false} SkipIdempotent(s: seq<byte>, i: nat, end: nat)
    requires i <= end <= |s|
    ensures var j := SkipSpace(s, i, end);
            SkipSpace(s, j, end) == j
  {
  }

  lemma ParseFromBlank(s: seq<byte>, i: nat, end: nat, depth: nat)
    requires i <= end <= |s|
    ensures ParseValue(s, i, end, depth) == ParseValue(s, SkipSpace(s, i, end), end, depth)
  {
    SkipIdempotent(s, i, end);
  }

  lemma RootSettled(s: seq<byte>)
    requires ParseText(s).Some?
    ensures Settled(s, ParseText(s).value)
  {
    SettledFrom(s, 0, |s|, 0);
  }

  /** One call of next_retro_vault_json_array_value. */
  datatype Next = Item(item: Value, cursor: nat, finished: bool) | Finished(at: nat) | Malformed

  function NextItem(s: seq<byte>, cursor: nat, end: nat): (r: Next)
    requires cursor <= end <= |s|
    ensures r.Item? ==> cursor < r.cursor <= end
  {
    var at := SkipSpace(s, cursor, end);
    if at >= end then Finished(at)
    else
      var value := ParseValue(s, at, end, 0);
      if value.None? then Malformed
      else
        var next := SkipSpace(s, value.value.extent.end, end);
        if next >= end then Item(value.value.extent, next, true)
        else if s[next] != COMMA then Malformed
        else Item(value.value.extent, next + 1, false)
  }

  /** All items the iterator returns until it reports the end, or None if it fails on the way. */
  function Iterate(s: seq<byte>, cursor: nat, end: nat): Option<seq<Value>>
    requires cursor <= end <= |s|
    decreases end - cursor
  {
    match NextItem(s, cursor, end)
    case Finished(_) => Some([])
    case Malformed => None
    case Item(item, next, finished) =>
      if finished then Some([item])
      else
        var rest := Iterate(s, next, end);
        if rest.None? then None else Some([item] + rest.value)
  }

  /** The parts of a container, parsed from a position inside it, all end before its closing bracket. */
  lemma {:induction false} IterateParts(s: seq<byte>, i: nat, end: nat, depth: nat, parts: Parts)
    requires i <= end <= |s| && ParseParts(s, i, end, depth, false) == Some(parts)
    ensures Iterate(s, i, parts.after - 1) == Some(parts.items)
    decreases end - i
  {
    hide *;
    var part := PartsUnfold(s, i, end, depth, false, parts);
    ElementAgain(s, i, end, depth, part, parts.after - 1);
    if s[part.next] == COMMA {
      var rest := ParseParts(s, part.next + 1, end, depth, false).value;
      IterateParts(s, part.next + 1, end, depth, rest);
    }
    IterateUnfold(s, i, parts.after - 1);
  }

  lemma PartsUnfold(s: seq<byte>, i: nat, end: nat, depth: nat, braces: bool, parts: Parts) returns (part: Part)
    requires i <= end <= |s| && ParseParts(s, i, end, depth, braces) == Some(parts)
    ensures ParsePart(s, i, end, depth, braces) == Some(part)
    ensures i < part.next < end
    ensures s[part.next] == COMMA ==>
              && ParseParts(s, part.next + 1, end, depth, braces).Some?
              && var rest := ParseParts(s, part.next + 1, end, depth, braces).value;
                 parts == Parts(part.keys + rest.keys, [part.item] + rest.items, rest.after)
    ensures s[part.next] != COMMA ==>
              s[part.next] == Closing(braces) && parts == Parts(part.keys, [part.item], part.next + 1)
  {
    hide ParseValue, ParsePart, ParseKey, SkipSpace;
    part := ParsePart(s, i, end, depth, braces).value;
  }

  lemma IterateUnfold(s: seq<byte>, cursor: nat, end: nat)
    requires cursor <= end <= |s| && NextItem(s, cursor, end).Item?
    ensures var next := NextItem(s, cursor, end);
            && (next.finished ==> Iterate(s, cursor, end) == Some([next.item]))
            && (!next.finished ==>
                  if Iterate(s, next.cursor, end).None? then Iterate(s, cursor, end).None?
                  else Iterate(s, cursor, end) == Some([next.item] + Iterate(s, next.cursor, end).value))
  {
    hide NextItem;
  }

  lemma IterateAtEnd(s: seq<byte>, end: nat)
    requires end <= |s|
    ensures Iterate(s, end, end) == Some([])
  {
  }

  lemma IterateFromBlank(s: seq<byte>, cursor: nat, end: nat)
    requires cursor <= end <= |s|
    ensures Iterate(s, cursor, end) == Iterate(s, SkipSpace(s, cursor, end), end)
  {
    hide NextItem, SkipSpace;
    NextFromBlank(s, cursor, end);
  }

  lemma NextFromBlank(s: seq<byte>, cursor: nat, end: nat)
    requires cursor <= end <= |s|
    ensures NextItem(s, cursor, end) == NextItem(s, SkipSpace(s, cursor, end), end)
  {
    SkipIdempotent(s, cursor, end);
  }

  lemma ElementAgain(s: seq<byte>, i: nat, end: nat, depth: nat, part: Part, near: nat)
    requires i <= end <= |s| && ParsePart(s, i, end, depth, false) == Some(part)
    requires part.next <= near < end && (part.next < near ==> s[part.next] == COMMA)
    ensures part.next == near ==> NextItem(s, i, near) == Item(part.item, near, true)
    ensures part.next < near ==> NextItem(s, i, near) == Item(part.item, part.next + 1, false)
  {
    ParseValueNarrow(s, i, end, depth + 1, near, 0);
    ParseFromBlank(s, i, near, 0);
    SkipNarrow(s, part.item.end, end, near);
  }

  /** The array iterator never fails on a value the reader delimited and returns exactly its elements, in order. */
  lemma IteratorYieldsElements(s: seq<byte>, n: Node)
    requires Settled(s, n) && n.extent.kind == Array
    ensures Iterate(s, n.extent.start + 1, n.extent.end - 1) == Some(n.items)
  {
    hide Iterate, NextItem, SkipSpace, ParseParts, ParseValue;
    var first := SkipSpace(s, n.extent.start + 1, n.extent.end);
    ContainerUnfold(s, n);
    SkipNarrow(s, n.extent.start + 1, n.extent.end, n.extent.end - 1);
    IterateFromBlank(s, n.extent.start + 1, n.extent.end - 1);
    if n.items == [] {
      IterateAtEnd(s, first);
    } else {
      IterateParts(s, first, n.extent.end, 0, Parts(n.keys, n.items, n.extent.end));
    }
  }

  /** A settled container is empty, or its parts start at the first byte inside it that is not blank. */
  lemma ContainerUnfold(s: seq<byte>, n: Node)
    requires Settled(s, n) && (n.extent.kind == Array || n.extent.kind == Object)
    ensures var braces, first := n.extent.kind == Object, SkipSpace(s, n.extent.start + 1, n.extent.end);
            if n.items == [] then first == n.extent.end - 1 && s[first] == Closing(braces) && n.keys == []
            else
              && ParseParts(s, first, n.extent.end, 0, braces) == Some(Parts(n.keys, n.items, n.extent.end))
              && first < n.extent.end
  {
    var braces, first := n.extent.kind == Object, SkipSpace(s, n.extent.start + 1, n.extent.end);
    assert s[n.extent.start] == if braces then OPEN_BRACE else OPEN_BRACKET;
    if first < n.extent.end && s[first] == Closing(braces) {
    } else {
      var part := PartsUnfold(s, first, n.extent.end, 0, braces, ParseParts(s, first, n.extent.end, 0, braces).value);
    }
  }
}
