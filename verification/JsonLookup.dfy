/** Member lookup in the slices the reader hands out. */
module JsonLookup {
  import opened Bytes
  import opened Json
  import opened JsonReparse
  import opened JsonString

  /** The part of a decoded string that strcmp sees. */
  function CString(b: seq<byte>): (r: seq<byte>)
    ensures |r| <= |b| && r == b[..|r|] && 0 !in r
    ensures |r| < |b| ==> b[|r|] == 0
  {
    if b == [] || b[0] == 0 then [] else [b[0]] + CString(b[1..])
  }

  /** json_string_matches. */
  predicate KeyIs(s: seq<byte>, key: Span, name: seq<byte>)
    requires key.start + 2 <= key.end <= |s|
  {
    var decoded := DecodeFrom(s, key.start + 1, key.end - 1);
    decoded.Some? && CString(decoded.value) == name
  }

  datatype Lookup = Found(value: Value) | Absent | Malformed

  /** get_retro_vault_json_member from a cursor inside the object. */
  function FindMember(s: seq<byte>, cursor: nat, end: nat, name: seq<byte>): Lookup
    requires cursor <= end <= |s|
    decreases end - cursor
  {
    var at := SkipSpace(s, cursor, end);
    if at >= end then Absent
    else
      var key := ParseValue(s, at, end, 0);
      if key.None? || key.value.extent.kind != String then Lookup.Malformed
      else
        var k := key.value.extent;
        var colon := SkipSpace(s, k.end, end);
        if colon >= end || s[colon] != COLON then Lookup.Malformed
        else
          var member := ParseValue(s, colon + 1, end, 0);
          if member.None? then Lookup.Malformed
          else if k.start + 2 <= k.end && KeyIs(s, Span(k.start, k.end), name) then Found(member.value.extent)
          else
            var next := SkipSpace(s, member.value.extent.end, end);
            if next < end && s[next] == COMMA then FindMember(s, next + 1, end, name)
            else if next == end then Absent
            else Lookup.Malformed
  }

  predicate Literals(s: seq<byte>, keys: seq<Span>)
  {
    forall k | 0 <= k < |keys| :: keys[k].start + 2 <= keys[k].end <= |s|
  }

  /** The value of the first member with the given name. */
  function FirstMatch(s: seq<byte>, keys: seq<Span>, items: seq<Value>, name: seq<byte>): (r: Lookup)
    requires |keys| == |items| && Literals(s, keys)
    ensures match r
            case Found(v) =>
              exists k | 0 <= k < |keys| :: KeyIs(s, keys[k], name) && items[k] == v
                                            && forall j | 0 <= j < k :: !KeyIs(s, keys[j], name)
            case Absent => forall k | 0 <= k < |keys| :: !KeyIs(s, keys[k], name)
            case Malformed => false
  {
    if keys == [] then Absent
    else if KeyIs(s, keys[0], name) then Found(items[0])
    else
      var r := FirstMatch(s, keys[1..], items[1..], name);
      assert forall k | 1 <= k < |keys| :: keys[k] == keys[1..][k - 1] && items[k] == items[1..][k - 1];
      r
  }

  lemma PartOf(s: seq<byte>, i: nat, end: nat, depth: nat, part: Part)
    requires i <= end <= |s| && ParsePart(s, i, end, depth, true) == Some(part)
    ensures ParseKey(s, i, end).Some?
    ensures var key := ParseKey(s, i, end).value;
            && part.keys == [key.0] && ParseValue(s, key.1, end, depth + 1).Some?
            && ParseValue(s, key.1, end, depth + 1).value.extent == part.item
            && part.next == SkipSpace(s, part.item.end, end)
  {
    hide ParseKey, SkipSpace, ParseValue;
  }

  /** Looking at the first member again, with the end at the closing brace and the depth restarted. */
  lemma MemberAgain(s: seq<byte>, i: nat, end: nat, depth: nat, part: Part, near: nat)
    requires i <= end <= |s| && ParsePart(s, i, end, depth, true) == Some(part)
    requires part.next <= near < end
    ensures |part.keys| == 1 && Literals(s, part.keys) && i <= part.keys[0].end <= part.item.start
    ensures part.keys[0].start + 2 <= part.keys[0].end <= |s|
    ensures var at := SkipSpace(s, i, near);
            && at < near
            && ParseValue(s, at, near, 0) == Some(Node(Value(part.keys[0].start, part.keys[0].end, String), [], []))
            && var colon := SkipSpace(s, part.keys[0].end, near);
               && colon < near && s[colon] == COLON
               && ParseValue(s, colon + 1, near, 0).Some?
               && ParseValue(s, colon + 1, near, 0).value.extent == part.item
    ensures SkipSpace(s, part.item.end, near) == part.next
  {
    hide ParseKey, SkipSpace, ParseString, ParseParts, ParseAtom;
    PartOf(s, i, end, depth, part);
    var key := ParseKey(s, i, end).value;
    KeyAgain(s, i, end, near);
    hide ParseValue;
    ParseValueNarrow(s, key.1, end, depth + 1, near, 0);
    SkipNarrow(s, part.item.end, end, near);
  }

  lemma KeyAgain(s: seq<byte>, i: nat, end: nat, near: nat)
    requires i <= end <= |s| && ParseKey(s, i, end).Some? && ParseKey(s, i, end).value.1 < near <= end
    ensures var key := ParseKey(s, i, end).value;
            && key.0.start + 2 <= key.0.end
            && SkipSpace(s, i, near) == key.0.start < near
            && ParseValue(s, key.0.start, near, 0) == Some(Node(Value(key.0.start, key.0.end, String), [], []))
            && SkipSpace(s, key.0.end, near) == key.1 - 1 && s[key.1 - 1] == COLON
  {
    hide ScanString;
    var key := ParseKey(s, i, end).value;
    SkipNarrow(s, i, end, near);
    SkipIdempotent(s, i, near);
    ParseStringNarrow(s, key.0.start, end, near);
    SkipNarrow(s, key.0.end, end, near);
  }

  lemma {:induction false} FindInParts(
      s: seq<byte>, i: nat, end: nat, depth: nat, parts: Parts, name: seq<byte>)
    requires i <= end <= |s| && ParseParts(s, i, end, depth, true) == Some(parts)
    ensures |parts.keys| == |parts.items| && Literals(s, parts.keys)
    ensures FindMember(s, i, parts.after - 1, name) == FirstMatch(s, parts.keys, parts.items, name)
    decreases end - i
  {
    hide *;
    var part := PartsUnfold(s, i, end, depth, true, parts);
    var near := parts.after - 1;
    MemberAgain(s, i, end, depth, part, near);
    FindStep(s, i, near, part, name);
    if s[part.next] == COMMA {
      var rest := ParseParts(s, part.next + 1, end, depth, true).value;
      FindInParts(s, part.next + 1, end, depth, rest, name);
      MatchCons(s, part.keys[0], rest.keys, part.item, rest.items, name);
      assert part.keys + rest.keys == [part.keys[0]] + rest.keys;
    } else {
      MatchNone(s, name);
      MatchCons(s, part.keys[0], [], part.item, [], name);
      assert part.keys == [part.keys[0]] + [] && [part.item] == [part.item] + [];
    }
  }

  lemma FindStep(s: seq<byte>, i: nat, near: nat, part: Part, name: seq<byte>)
    requires i <= near <= |s| && |part.keys| == 1 && Literals(s, part.keys) && part.keys[0].end <= near
    requires part.item.end <= part.next <= near && SkipSpace(s, i, near) < near
    requires ParseValue(s, SkipSpace(s, i, near), near, 0)
             == Some(Node(Value(part.keys[0].start, part.keys[0].end, String), [], []))
    requires var colon := SkipSpace(s, part.keys[0].end, near);
             && colon < near && s[colon] == COLON
             && ParseValue(s, colon + 1, near, 0).Some?
             && ParseValue(s, colon + 1, near, 0).value.extent == part.item
    requires SkipSpace(s, part.item.end, near) == part.next
    requires part.next < near ==> s[part.next] == COMMA
    requires i <= part.item.end
    ensures FindMember(s, i, near, name) ==
            if KeyIs(s, part.keys[0], name) then Found(part.item)
            else if part.next < near then FindMember(s, part.next + 1, near, name)
            else Absent
  {
    hide ParseValue, SkipSpace, KeyIs;
    assert Span(part.keys[0].start, part.keys[0].end) == part.keys[0];
  }

  lemma MatchCons(s: seq<byte>, key: Span, keys: seq<Span>, item: Value, items: seq<Value>, name: seq<byte>)
    requires |keys| == |items| && Literals(s, keys) && key.start + 2 <= key.end <= |s|
    ensures Literals(s, [key] + keys)
    ensures FirstMatch(s, [key] + keys, [item] + items, name) ==
            if KeyIs(s, key, name) then Found(item) else FirstMatch(s, keys, items, name)
  {
    hide KeyIs;
    assert ([key] + keys)[1..] == keys && ([item] + items)[1..] == items;
  }

  lemma MatchNone(s: seq<byte>, name: seq<byte>)
    ensures Literals(s, []) && FirstMatch(s, [], [], name) == Absent
  {
  }

  /** Looking up a name in a delimited object never fails structurally: it finds the value of the first member whose
      decoded key is that name, or reports that there is none. */
  lemma LookupFindsFirst(s: seq<byte>, n: Node, name: seq<byte>)
    requires Settled(s, n) && n.extent.kind == Object
    ensures |n.keys| == |n.items| && Literals(s, n.keys)
    ensures FindMember(s, n.extent.start + 1, n.extent.end - 1, name) == FirstMatch(s, n.keys, n.items, name)
  {
    hide ParseValue, ParseParts, KeyIs, FirstMatch, FindMember, SkipSpace;
    var first := SkipSpace(s, n.extent.start + 1, n.extent.end);
    ContainerUnfold(s, n);
    SkipNarrow(s, n.extent.start + 1, n.extent.end, n.extent.end - 1);
    FindFromBlank(s, n.extent.start + 1, n.extent.end - 1, name);
    if n.items == [] {
      FindAtEnd(s, first, name);
      MatchNone(s, name);
    } else {
      FindInParts(s, first, n.extent.end, 0, Parts(n.keys, n.items, n.extent.end), name);
    }
  }

  lemma FindFromBlank(s: seq<byte>, cursor: nat, end: nat, name: seq<byte>)
    requires cursor <= end <= |s|
    ensures FindMember(s, cursor, end, name) == FindMember(s, SkipSpace(s, cursor, end), end, name)
  {
    hide ParseValue, SkipSpace, KeyIs;
    SkipIdempotent(s, cursor, end);
  }

  lemma FindAtEnd(s: seq<byte>, end: nat, name: seq<byte>)
    requires end <= |s|
    ensures FindMember(s, end, end, name) == Absent
  {
  }

  /** A slice that its own extent parses to. */
  ghost predicate Readable(s: seq<byte>, v: Value)
  {
    && v.start <= v.end <= |s| && ParseValue(s, v.start, v.end, 0).Some?
    && ParseValue(s, v.start, v.end, 0).value.extent == v
  }

  lemma {:induction false} ItemsReadable(s: seq<byte>, i: nat, end: nat, depth: nat, braces: bool, parts: Parts)
    requires i <= end <= |s| && ParseParts(s, i, end, depth, braces) == Some(parts)
    ensures forall k | 0 <= k < |parts.items| :: Readable(s, parts.items[k])
    decreases end - i
  {
    hide ParseValue, ParseKey, ParseParts, ParsePart, SkipSpace;
    var part := PartsUnfold(s, i, end, depth, braces, parts);
    PartReadable(s, i, end, depth, braces, part);
    if s[part.next] == COMMA {
      ItemsReadable(s, part.next + 1, end, depth, braces, ParseParts(s, part.next + 1, end, depth, braces).value);
    }
  }

  lemma PartReadable(s: seq<byte>, i: nat, end: nat, depth: nat, braces: bool, part: Part)
    requires i <= end <= |s| && ParsePart(s, i, end, depth, braces) == Some(part)
    ensures Readable(s, part.item)
  {
    hide ParseValue, ParseKey, SkipSpace;
    SettledFrom(s, if braces then ParseKey(s, i, end).value.1 else i, end, depth + 1);
  }

  /** One step from a container to one of its parts, as the catalogue reader takes them. */
  datatype Step = Element(k: nat) | Member(name: seq<byte>)

  /** Where a path of iterator and lookup steps leads: a value, nothing, or a step that fails structurally. */
  datatype Reached = At(value: Value) | Nothing | Broken

  function Follow(s: seq<byte>, v: Value, path: seq<Step>): Reached
    requires v.start <= v.end <= |s|
    decreases |path|
  {
    if path == [] then Reached.At(v)
    else
      match path[0]
      case Element(k) =>
        if v.kind != Array || v.start + 1 > v.end - 1 then Nothing
        else (match Iterate(s, v.start + 1, v.end - 1)
              case None => Broken
              case Some(items) =>
                if k >= |items| then Nothing
                else if items[k].start <= items[k].end <= |s| then Follow(s, items[k], path[1..]) else Broken)
      case Member(name) =>
        if v.kind != Object || v.start + 1 > v.end - 1 then Nothing
        else (match FindMember(s, v.start + 1, v.end - 1, name)
              case Malformed => Broken
              case Absent => Nothing
              case Found(w) => if w.start <= w.end <= |s| then Follow(s, w, path[1..]) else Broken)
  }

  /** From an accepted text, no sequence of array iterations and member lookups ever fails structurally, and every
      value reached parses again to itself. */
  lemma {:induction false} FollowNeverBreaks(s: seq<byte>, v: Value, path: seq<Step>)
    requires Readable(s, v)
    ensures match Follow(s, v, path)
            case Broken => false
            case Nothing => true
            case At(w) => Readable(s, w)
    decreases |path|
  {
    hide Iterate, FindMember, FirstMatch, ParseValue, SkipSpace, Settled, KeyIs, Literals;
    if path != [] && (v.kind == Array || v.kind == Object) {
      var n := ReadableNode(s, v);
      PartsReadable(s, n);
      if path[0].Element? && v.kind == Array {
        IteratorYieldsElements(s, n);
        if path[0].k < |n.items| {
          FollowNeverBreaks(s, n.items[path[0].k], path[1..]);
        }
      } else if path[0].Member? && v.kind == Object {
        LookupFindsFirst(s, n, path[0].name);
        var r := FirstMatch(s, n.keys, n.items, path[0].name);
        if r.Found? {
          FollowNeverBreaks(s, r.value, path[1..]);
        }
      }
    }
  }

  lemma ReadableNode(s: seq<byte>, v: Value) returns (n: Node)
    requires Readable(s, v)
    ensures Settled(s, n) && n.extent == v
  {
    n := ParseValue(s, v.start, v.end, 0).value;
  }

  lemma PartsReadable(s: seq<byte>, n: Node)
    requires Settled(s, n) && (n.extent.kind == Array || n.extent.kind == Object)
    ensures forall k | 0 <= k < |n.items| :: Readable(s, n.items[k])
  {
    ContainerUnfold(s, n);
    if n.items != [] {
      var first := SkipSpace(s, n.extent.start + 1, n.extent.end);
      ItemsReadable(s, first, n.extent.end, 0, n.extent.kind == Object, Parts(n.keys, n.items, n.extent.end));
    }
  }

  lemma RootNeverBreaks(s: seq<byte>, path: seq<Step>)
    requires ParseText(s).Some?
    ensures Readable(s, ParseText(s).value.extent)
    ensures !Follow(s, ParseText(s).value.extent, path).Broken?
  {
    RootSettled(s);
    FollowNeverBreaks(s, ParseText(s).value.extent, path);
  }
}
