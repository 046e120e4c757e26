/** The TCP proxy's host names: which are well formed, and which the allow list admits. */
module TcpHosts {
  import opened Bytes
  import opened Paths
  import Catalog

  const HOST_MAX: nat := 240
  const COMMA: byte := 0x2C
  const STAR: byte := 0x2A
  const BACKSLASH: byte := 0x5C

  function TrimLeft(s: seq<byte>): seq<byte> { if s != [] && IsSpace(s[0]) then TrimLeft(s[1..]) else s }

  function TrimRight(s: seq<byte>): seq<byte>
  {
    if s != [] && IsSpace(s[|s| - 1]) then TrimRight(s[..|s| - 1]) else s
  }

  function Trim(s: seq<byte>): seq<byte> { TrimRight(TrimLeft(s)) }

  /** An item stands for the host. */
  predicate Names(item: seq<byte>, host: seq<byte>) { Catalog.SameText(Trim(item), host) }

  predicate Named(items: seq<seq<byte>>, host: seq<byte>) { exists k | 0 <= k < |items| :: Names(items[k], host) }

  /** The empty list and a lone star admit every host, other lists those they name. */
  predicate Allowed(list: seq<byte>, host: seq<byte>)
  {
    list == [] || list == [STAR] || Named(Split(list, COMMA), host)
  }

  predicate GoodByte(c: byte) { c != 0 && !IsSpace(c) && c != SEPARATOR && c != BACKSLASH }

  predicate GoodHost(host: seq<byte>)
  {
    1 <= |host| <= HOST_MAX && forall k | 0 <= k < |host| :: GoodByte(host[k])
  }

  /** Good are the names of 1 to 240 bytes without NUL, blanks, slash and backslash. */
  lemma HostExactly(host: seq<byte>)
    ensures GoodHost(host)
            <==> 1 <= |host| <= 240
                 && forall c | c in host :: c !in {0x00, 0x20, 0x09, 0x0A, 0x0B, 0x0C, 0x0D, 0x2F, 0x5C}
  {
    assert forall k | 0 <= k < |host| :: host[k] in host;
  }

  predicate Blank(s: seq<byte>) { forall k | 0 <= k < |s| :: IsSpace(s[k]) }

  lemma {:induction false} LeftExactly(s: seq<byte>) returns (a: seq<byte>)
    ensures Blank(a) && s == a + TrimLeft(s) && (TrimLeft(s) != [] ==> !IsSpace(TrimLeft(s)[0]))
  {
    a := [];
    if s != [] && IsSpace(s[0]) {
      var b := LeftExactly(s[1..]);
      a := [s[0]] + b;
      assert s == [s[0]] + s[1..];
    }
  }

  lemma {:induction false} RightExactly(s: seq<byte>) returns (b: seq<byte>)
    ensures Blank(b) && s == TrimRight(s) + b && (TrimRight(s) != [] ==> !IsSpace(TrimRight(s)[|TrimRight(s)| - 1]))
  {
    b := [];
    if s != [] && IsSpace(s[|s| - 1]) {
      var c := RightExactly(s[..|s| - 1]);
      b := c + [s[|s| - 1]];
      assert s == s[..|s| - 1] + [s[|s| - 1]];
    }
  }

  /** Trimming takes off blanks, and all of them. */
  lemma TrimExactly(s: seq<byte>) returns (a: seq<byte>, b: seq<byte>)
    ensures var t := Trim(s);
            && s == a + t + b && Blank(a) && Blank(b) && (t != [] ==> !IsSpace(t[0]) && !IsSpace(t[|t| - 1]))
  {
    hide TrimLeft, TrimRight;
    a := LeftExactly(s);
    b := RightExactly(TrimLeft(s));
    assert s == a + Trim(s) + b;
    if Trim(s) != [] {
      assert TrimLeft(s)[0] == Trim(s)[0];
    }
  }

  /** A host is admitted exactly by the empty list, by a lone star, and by a list of items joined with commas of which
      one, trimmed, is the host up to letter case. */
  lemma AllowedExactly(list: seq<byte>, host: seq<byte>)
    ensures Allowed(list, host)
            <==> || list == [] || list == Ascii("*")
                 || exists items: seq<seq<byte>>, k ::
                      && 0 <= k < |items| && list == Join(items, 0x2C)
                      && (forall j | 0 <= j < |items| :: 0x2C !in items[j])
                      && Catalog.SameText(Trim(items[k]), host)
  {
    hide Split, Join, Trim, Catalog.SameText;
    assert Ascii("*") == [STAR];
    JoinSplit(list, COMMA);
    if Named(Split(list, COMMA), host) {
      var items := Split(list, COMMA);
      var k :| 0 <= k < |items| && Names(items[k], host);
      assert forall j | 0 <= j < |items| :: Free(items[j], COMMA);
      assert forall j | 0 <= j < |items| :: 0x2C !in items[j];
    }
    if items: seq<seq<byte>>, k :|
      && 0 <= k < |items| && list == Join(items, 0x2C) && (forall j | 0 <= j < |items| :: 0x2C !in items[j])
      && Catalog.SameText(Trim(items[k]), host)
    {
      SplitJoin(items, COMMA);
      assert Names(items[k], host);
    }
  }

  /** host_is_valid: accepts exactly the good names and leaves a terminated copy. */
  method HostIsValid(host: seq<byte>, text: array<byte>) returns (ok: bool)
    requires text.Length == HOST_MAX + 1
    modifies text
    ensures ok <==> GoodHost(host)
    ensures ok ==> text[..|host|] == host && text[|host|] == 0
  {
    if host == [] || |host| > HOST_MAX {
      return false;
    }
    for i := 0 to |host|
      invariant forall k | 0 <= k < i :: GoodByte(host[k]) && text[k] == host[k]
    {
      if host[i] == 0 || IsSpace(host[i]) || host[i] == SEPARATOR || host[i] == BACKSLASH {
        return false;
      }
      text[i] := host[i];
    }
    text[|host|] := 0;
    return true;
  }

  /** The end of the item that begins at `i`. */
  function ItemEnd(s: seq<byte>, i: nat): (e: nat)
    requires i <= |s|
    ensures i <= e <= |s| && Free(s[i..e], COMMA) && (e < |s| ==> s[e] == COMMA)
    decreases |s| - i
  {
    if i == |s| || s[i] == COMMA then i
    else
      var e := ItemEnd(s, i + 1);
      assert s[i..e] == [s[i]] + s[i + 1..e];
      e
  }

  /** The first item and the items behind it. */
  lemma NamedFrom(s: seq<byte>, i: nat, host: seq<byte>)
    requires i <= |s|
    ensures var e := ItemEnd(s, i);
            Named(Split(s[i..], COMMA), host)
            <==> Names(s[i..e], host) || (e < |s| && Named(Split(s[e + 1..], COMMA), host))
  {
    hide Names, Split;
    var e := ItemEnd(s, i);
    var first := s[i..e];
    if e == |s| {
      assert s[i..] == first;
      SplitFree(first, COMMA);
      assert [first][0] == first;
    } else {
      var rest := Split(s[e + 1..], COMMA);
      assert s[i..] == first + [COMMA] + s[e + 1..];
      SplitFirst(first, s[e + 1..], COMMA);
      NamedCons(first, rest, host);
    }
  }

  lemma NamedCons(first: seq<byte>, rest: seq<seq<byte>>, host: seq<byte>)
    ensures Named([first] + rest, host) <==> Names(first, host) || Named(rest, host)
  {
    hide Names;
    var all := [first] + rest;
    assert all[0] == first;
    if Named(rest, host) {
      var k :| 0 <= k < |rest| && Names(rest[k], host);
      assert all[k + 1] == rest[k];
    }
    if Named(all, host) {
      var k :| 0 <= k < |all| && Names(all[k], host);
      assert k > 0 ==> rest[k - 1] == all[k];
    }
  }

  /** An item of blanks, such as the one behind a trailing comma, names no host. */
  lemma NothingNamed(host: seq<byte>)
    requires host != []
    ensures !Named(Split([], COMMA), host)
  {
    assert Split([], COMMA) == [[]] && Trim([]) == [];
  }

  /** Blanks in front of an item are passed over. */
  method SkipLeft(list: seq<byte>, cursor: nat) returns (start: nat)
    requires cursor <= |list|
    ensures cursor <= start <= ItemEnd(list, cursor) && ItemEnd(list, start) == ItemEnd(list, cursor)
    ensures TrimLeft(list[cursor..ItemEnd(list, cursor)]) == list[start..ItemEnd(list, cursor)]
  {
    ghost var e := ItemEnd(list, cursor);
    start := cursor;
    while start < |list| && IsSpace(list[start])
      invariant cursor <= start <= e && ItemEnd(list, start) == e
      invariant TrimLeft(list[start..e]) == TrimLeft(list[cursor..e])
    {
      assert list[start..e][1..] == list[start + 1..e];
      start := start + 1;
    }
  }

  /** The comma behind an item, or the end of the list. */
  method FindComma(list: seq<byte>, start: nat) returns (end: nat)
    requires start <= |list|
    ensures end == ItemEnd(list, start)
  {
    end := start;
    while end < |list| && list[end] != COMMA
      invariant start <= end <= |list| && ItemEnd(list, end) == ItemEnd(list, start)
    {
      end := end + 1;
    }
  }

  /** Blanks at the end of an item are taken off. */
  method TrimEnd(list: seq<byte>, start: nat, from: nat) returns (end: nat)
    requires start <= from <= |list|
    ensures start <= end <= from && list[start..end] == TrimRight(list[start..from])
  {
    end := from;
    while end > start && IsSpace(list[end - 1])
      invariant start <= end <= from && TrimRight(list[start..end]) == TrimRight(list[start..from])
    {
      assert list[start..end][..end - start - 1] == list[start..end - 1];
      end := end - 1;
    }
  }

  /** The item between `cursor` and its comma, without the blanks around it. */
  method NextItem(list: seq<byte>, cursor: nat) returns (start: nat, end: nat)
    requires cursor <= |list|
    ensures cursor <= start <= end <= ItemEnd(list, cursor)
    ensures list[start..end] == Trim(list[cursor..ItemEnd(list, cursor)])
  {
    start := SkipLeft(list, cursor);
    end := FindComma(list, start);
    end := TrimEnd(list, start, end);
  }

  /** host_is_allowed: a host passes exactly when the list is empty or a star, or when some item of its comma split,
      trimmed, equals it up to letter case. */
  method HostIsAllowed(list: seq<byte>, host: seq<byte>) returns (ok: bool)
    requires host != []
    ensures ok <==> Allowed(list, host)
  {
    hide Named, Split, Names;
    if list == [] || list == [STAR] {
      return true;
    }
    var cursor := 0;
    assert list[0..] == list;
    while cursor < |list|
      invariant cursor <= |list| && Named(Split(list, COMMA), host) == Named(Split(list[cursor..], COMMA), host)
    {
      NamedFrom(list, cursor, host);
      var start, end := NextItem(list, cursor);
      var same := Catalog.TextEquals(list[start..end], host);
      NamesItem(list[cursor..ItemEnd(list, cursor)], list[start..end], host);
      if same {
        return true;
      }
      ghost var e := ItemEnd(list, cursor);
      SameEnd(list, cursor, end);
      cursor := end;
      while cursor < |list| && list[cursor] != COMMA
        invariant end <= cursor <= e && ItemEnd(list, cursor) == e
      {
        cursor := cursor + 1;
      }
      if cursor < |list| {
        cursor := cursor + 1;
      } else {
        assert list[|list|..] == [];
        NothingNamed(host);
      }
    }
    assert list[cursor..] == [];
    NothingNamed(host);
    return false;
  }

  lemma NamesItem(item: seq<byte>, trimmed: seq<byte>, host: seq<byte>)
    requires trimmed == Trim(item)
    ensures Names(item, host) <==> Catalog.SameText(trimmed, host)
  {
  }

  /** Every position of an item has the same end. */
  lemma {:induction false} SameEnd(s: seq<byte>, i: nat, j: nat)
    requires i <= |s| && i <= j <= ItemEnd(s, i)
    ensures ItemEnd(s, j) == ItemEnd(s, i)
    decreases |s| - i
  {
    if i < j {
      SameEnd(s, i + 1, j);
    }
  }
}
