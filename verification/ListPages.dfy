/** LIST and SEARCH: one page, and the traversal that follows the cursors. */
module ListPages {
  import opened Bytes
  import Utf8
  import opened Records
  import opened Catalog

  /** How many bytes of `name` are kept where `maximum` fit. */
  function NameSize(name: seq<byte>, maximum: nat): (n: nat)
    ensures n <= |name| && n <= maximum && n <= 255
  {
    var cut := if |name| > maximum then Utf8.StepBack(name, maximum) else |name|;
    Min(cut, 255)
  }

  /** make_list_entry. */
  function MakeEntry(p: Package, capacity: nat): (r: Option<Record>)
    ensures r.Some? ==> Countable(r.value) && r.value.Entry? && |Encode(r.value)| <= capacity
  {
    if capacity < 2 || |p.id| > 255 || |p.id| > capacity - 2 then None
    else Some(Entry(p.id, p.name[..NameSize(p.name, capacity - |p.id| - 2)]))
  }

  lemma LongestName(name: seq<byte>, maximum: nat)
    requires Utf8.Valid(name) && maximum <= 255
    ensures var n := NameSize(name, maximum);
            Utf8.Valid(name[..n]) && forall k | n < k <= |name| && k <= maximum :: !Utf8.Valid(name[..k])
  {
    hide Utf8.Valid, Utf8.StepBack;
    if |name| > maximum {
      Utf8.StepBackLongest(name, maximum);
    } else {
      assert name[..|name|] == name;
    }
  }

  /** An entry exists exactly for ids that fit, and its name is the longest prefix that fits without splitting a
      character. */
  lemma EntryNames(p: Package)
    requires Utf8.Valid(p.name)
    ensures MakeEntry(p, ENTRY_MAX).Some? <==> |p.id| <= 247
    ensures |p.id| <= 247 ==>
              var n := |MakeEntry(p, ENTRY_MAX).value.name|;
              && MakeEntry(p, ENTRY_MAX).value.name == p.name[..n] && Utf8.Valid(p.name[..n])
              && forall k | n < k <= |p.name| && k + |p.id| <= 247 :: !Utf8.Valid(p.name[..k])
  {
    hide NameSize, Utf8.Valid, Encode;
    if |p.id| <= 247 {
      LongestName(p.name, 247 - |p.id|);
    }
  }

  datatype PageResult = Page(records: seq<Record>, next: nat) | Failed(status: byte)

  function Cons(r: Record, rest: PageResult): PageResult
  {
    if rest.Failed? then rest else rest.(records := [r] + rest.records)
  }

  /** The page loop over the matching packages from number `i` on, with `room` bytes left. */
  function Build(ms: seq<Package>, i: nat, room: nat, taken: bool): (r: PageResult)
    ensures r.Page? ==> AllOf(r.records, Entries)
    decreases |ms| - i
  {
    if i >= |ms| then Page([], CURSOR_END)
    else
      match MakeEntry(ms[i], ENTRY_MAX)
      case None => Build(ms, i + 1, room, taken)
      case Some(r) =>
        if |Encode(r)| <= room then Cons(r, Build(ms, i + 1, room - |Encode(r)|, true))
        else if taken then Page([], i)
        else
          match MakeEntry(ms[i], room)
          case None => Failed(STATUS_TOO_LARGE)
          case Some(q) => Cons(q, Build(ms, i + 1, room - |Encode(q)|, true))
  }

  /** What a page holds stays within its room. */
  lemma {:induction false} BuildFits(ms: seq<Package>, i: nat, room: nat, taken: bool)
    ensures var r := Build(ms, i, room, taken);
            r.Page? ==> |EncodeAll(r.records, Entries)| <= room && 2 * |r.records| <= room
    decreases |ms| - i
  {
    hide MakeEntry, Encode;
    if i < |ms| {
      var big := MakeEntry(ms[i], ENTRY_MAX);
      if big.None? {
        BuildFits(ms, i + 1, room, taken);
      } else if |Encode(big.value)| <= room {
        ConsFits(ms, i, room, big.value);
      } else if !taken && MakeEntry(ms[i], room).Some? {
        ConsFits(ms, i, room, MakeEntry(ms[i], room).value);
      }
    }
  }

  lemma {:induction false} ConsFits(ms: seq<Package>, i: nat, room: nat, r: Record)
    requires i < |ms| && Countable(r) && r.Entry? && |Encode(r)| <= room
    ensures var c := Cons(r, Build(ms, i + 1, room - |Encode(r)|, true));
            c.Page? ==> AllOf(c.records, Entries) && |EncodeAll(c.records, Entries)| <= room && 2 * |c.records| <= room
    decreases |ms| - i, 0
  {
    hide MakeEntry, Encode;
    BuildFits(ms, i + 1, room - |Encode(r)|, true);
    var rest := Build(ms, i + 1, room - |Encode(r)|, true);
    if rest.Page? {
      EncodeCons(r, rest.records, Entries);
    }
  }

  // ----- traversal -----------------------------------------------------------------------------------------------

  /** The entries of the matching packages from number `i` on that have one. */
  function Listing(ms: seq<Package>, i: nat): (r: seq<Record>)
    ensures AllOf(r, Entries)
    decreases |ms| - i
  {
    if i >= |ms| then []
    else
      var e := MakeEntry(ms[i], ENTRY_MAX);
      (if e.Some? then [e.value] else []) + Listing(ms, i + 1)
  }

  lemma ListingUnfold(ms: seq<Package>, i: nat)
    ensures Listing(ms, i)
            == if i >= |ms| then []
               else
                 var e := MakeEntry(ms[i], ENTRY_MAX);
                 if e.Some? then [e.value] + Listing(ms, i + 1) else Listing(ms, i + 1)
  {
    hide MakeEntry;
    assert forall rs: seq<Record> :: [] + rs == rs;
  }

  /** One turn of the page loop where an entry always fits an empty page. */
  lemma BuildUnfold(ms: seq<Package>, i: nat, room: nat, taken: bool)
    requires taken || room >= ENTRY_MAX
    ensures Build(ms, i, room, taken)
            == if i >= |ms| then Page([], CURSOR_END)
               else
                 var e := MakeEntry(ms[i], ENTRY_MAX);
                 if e.None? then Build(ms, i + 1, room, taken)
                 else if |Encode(e.value)| <= room then Cons(e.value, Build(ms, i + 1, room - |Encode(e.value)|, true))
                 else Page([], i)
  {
    hide MakeEntry, Encode, Cons;
  }

  lemma AssociateRecords(r: Record, a: seq<Record>, b: seq<Record>)
    ensures [r] + (a + b) == ([r] + a) + b
  {
  }

  /** A page goes on as long as it can: where it stops, the next entry does not fit behind what it holds. */
  lemma {:induction false} BuildFull(ms: seq<Package>, i: nat, room: nat, taken: bool)
    requires i <= |ms| <= CATALOG_MAX && (taken || room >= ENTRY_MAX)
    ensures var r := Build(ms, i, room, taken);
            r.Page? && r.next != CURSOR_END ==>
              && r.next < |ms| && MakeEntry(ms[r.next], ENTRY_MAX).Some?
              && |EncodeAll(r.records, Entries)| + |Encode(MakeEntry(ms[r.next], ENTRY_MAX).value)| > room
    decreases |ms| - i
  {
    hide MakeEntry, Encode, Build;
    BuildUnfold(ms, i, room, taken);
    if i < |ms| {
      var e := MakeEntry(ms[i], ENTRY_MAX);
      if e.None? {
        BuildFull(ms, i + 1, room, taken);
      } else if |Encode(e.value)| <= room {
        BuildFull(ms, i + 1, room - |Encode(e.value)|, true);
        var rest := Build(ms, i + 1, room - |Encode(e.value)|, true);
        if rest.Page? {
          EncodeCons(e.value, rest.records, Entries);
        }
      }
    }
  }

  /** A page at full capacity takes the listing off at its cursor and names where it goes on. */
  lemma {:induction false} BuildTakes(ms: seq<Package>, i: nat, room: nat, taken: bool)
    requires i <= |ms| <= CATALOG_MAX && (taken || room >= ENTRY_MAX)
    ensures var r := Build(ms, i, room, taken);
            && r.Page?
            && (r.next == CURSOR_END || (i <= r.next < |ms| && (!taken ==> i < r.next)))
            && Listing(ms, i) == r.records + (if r.next == CURSOR_END then [] else Listing(ms, r.next))
    decreases |ms| - i
  {
    hide MakeEntry, Encode, AllOf, Build, Listing;
    BuildUnfold(ms, i, room, taken);
    ListingUnfold(ms, i);
    if i < |ms| {
      var e := MakeEntry(ms[i], ENTRY_MAX);
      if e.None? {
        BuildTakes(ms, i + 1, room, taken);
      } else if |Encode(e.value)| <= room {
        BuildTakes(ms, i + 1, room - |Encode(e.value)|, true);
        var rest := Build(ms, i + 1, room - |Encode(e.value)|, true);
        AssociateRecords(e.value, rest.records, if rest.next == CURSOR_END then [] else Listing(ms, rest.next));
      }
    }
  }

  /** The bytes of one answer to LIST or SEARCH in a packet of `capacity` bytes. */
  function Answer(opcode: byte, ms: seq<Package>, cursor: nat, capacity: nat): (b: seq<byte>)
    requires opcode < 0x80 && HEADER_SIZE <= capacity <= PACKET_MAX && |ms| <= CATALOG_MAX
  {
    match Build(ms, cursor, capacity - HEADER_SIZE, false)
    case Failed(status) => [opcode + RESPONSE_BIT, status]
    case Page(records, next) =>
      BuildFits(ms, cursor, capacity - HEADER_SIZE, false);
      BuildNext(ms, cursor, capacity - HEADER_SIZE, false);
      PageBytes(opcode, next, records, Entries)
  }

  lemma {:induction false} BuildNext(ms: seq<Package>, i: nat, room: nat, taken: bool)
    requires |ms| <= CATALOG_MAX
    ensures var r := Build(ms, i, room, taken); r.Page? ==> r.next <= CURSOR_END
    decreases |ms| - i
  {
    hide MakeEntry, Encode, AllOf;
    if i < |ms| {
      var big := MakeEntry(ms[i], ENTRY_MAX);
      if big.None? {
        BuildNext(ms, i + 1, room, taken);
      } else if |Encode(big.value)| <= room {
        BuildNext(ms, i + 1, room - |Encode(big.value)|, true);
      } else if !taken && MakeEntry(ms[i], room).Some? {
        BuildNext(ms, i + 1, room - |Encode(MakeEntry(ms[i], room).value)|, true);
      }
    }
  }

  /** A client that asks from `cursor`, iterates each page and follows the cursors: the records it sees, or None if
      an answer is an error, does not parse or does not lead forward. */
  function ClientWalk(opcode: byte, ms: seq<Package>, cursor: nat): Option<seq<Record>>
    requires opcode < 0x80 && |ms| <= CATALOG_MAX && cursor <= |ms|
    decreases |ms| - cursor
  {
    var b := Answer(opcode, ms, cursor, PACKET_MAX);
    if |b| < HEADER_SIZE || b[1] != STATUS_OK then None
    else
      var here := ReadAll(Entries, b, HEADER_SIZE, |b|, b[4]);
      var next := ReadU16(b, 2);
      if here.None? then None
      else if next == CURSOR_END then here
      else if !(cursor < next <= |ms|) then None
      else
        var more := ClientWalk(opcode, ms, next);
        if more.None? then None else Some(here.value + more.value)
  }

  /** Following LIST or SEARCH cursors from 0 ends, and shows the client exactly the entries of the matching packages
      with ids of at most 247 bytes, in catalogue order. */
  lemma {:induction false} WalkListsAll(opcode: byte, ms: seq<Package>, cursor: nat)
    requires opcode < 0x80 && |ms| <= CATALOG_MAX && cursor <= |ms|
    ensures ClientWalk(opcode, ms, cursor) == Some(Listing(ms, cursor))
    decreases |ms| - cursor
  {
    BuildTakes(ms, cursor, PACKET_MAX - HEADER_SIZE, false);
    BuildFits(ms, cursor, PACKET_MAX - HEADER_SIZE, false);
    hide Build, Listing, PageBytes, ReadAll;
    var r := Build(ms, cursor, PACKET_MAX - HEADER_SIZE, false);
    PageReadBack(opcode, r.next, r.records, Entries);
    if r.next != CURSOR_END {
      WalkListsAll(opcode, ms, r.next);
    } else {
      assert r.records + [] == r.records;
    }
  }

  // ----- the writers ---------------------------------------------------------------------------------------------

  method MakeListEntry(p: Package, entry: array<byte>, capacity: nat) returns (size: nat)
    requires capacity <= entry.Length
    modifies entry
    ensures var r := MakeEntry(p, capacity);
            if r.None? then size == 0 else size == |Encode(r.value)| && entry[..size] == Encode(r.value)
  {
    if capacity < 2 || |p.id| > 255 || |p.id| > capacity - 2 {
      return 0;
    }
    var nameSize := |p.name|;
    var maximum := capacity - |p.id| - 2;
    if nameSize > maximum {
      nameSize := Utf8.StepBackLoop(p.name, maximum);
    }
    if nameSize > 255 {
      nameSize := 255;
    }
    ghost var id, name := [|p.id|] + p.id, [nameSize] + p.name[..nameSize];
    PutCounted(entry, 0, p.id);
    assert entry[..|id|] == id;
    PutCounted(entry, 1 + |p.id|, p.name[..nameSize]);
    size := 2 + |p.id| + nameSize;
    assert entry[..size] == id + name;
  }

  function Prefix(done: seq<Record>, rest: PageResult): PageResult
  {
    if rest.Failed? then rest else rest.(records := done + rest.records)
  }

  lemma PrefixCons(done: seq<Record>, r: Record, rest: PageResult)
    ensures Prefix(done, Cons(r, rest)) == Prefix(done + [r], rest)
  {
    if rest.Page? {
      assert done + ([r] + rest.records) == (done + [r]) + rest.records;
    }
  }

  /** The package at `p` is the next match after those before it, or no match at all. */
  lemma SelectAt(ps: seq<Package>, f: Filter, p: nat)
    requires p < |ps|
    ensures var before, ms := Select(ps[..p], f), Select(ps, f);
            && Select(ps[..p + 1], f) == before + (if Matches(ps[p], f) then [ps[p]] else [])
            && |before| <= |ms| && (Matches(ps[p], f) ==> |before| < |ms| && ms[|before|] == ps[p])
  {
    hide Matches;
    var head := ps[..p + 1];
    assert head[..p] == ps[..p] && ps == head + ps[p + 1..];
    SelectAppend(head, ps[p + 1..], f);
  }

  method PackageMatches(p: Package, f: Filter) returns (matches: bool)
    ensures matches <==> Matches(p, f)
  {
    if f.platform != [] && !PlatformMatches(p.platformId, f.platform) {
      return false;
    }
    if f.model != [] {
      var same := TextEquals(p.modelId, f.model);
      if !same {
        return false;
      }
    }
    if f.query == [] {
      return true;
    }
    var inId := TextContains(p.id, f.query);
    var inName := TextContains(p.name, f.query);
    var inVendor := TextContains(p.vendor, f.query);
    var inDescription := TextContains(p.description, f.query);
    return inId || inName || inVendor || inDescription;
  }

  /** What is written so far: `records` from the cursor on, and what the loop will still add. */
  ghost predicate Progress(
      ms: seq<Package>, cursor: nat, capacity: nat, matchIndex: nat, out: nat, records: seq<Record>, b: seq<byte>)
  {
    && HEADER_SIZE <= out <= capacity <= |b| && AllOf(records, Entries) && 2 * |records| <= out - HEADER_SIZE
    && b[HEADER_SIZE..out] == EncodeAll(records, Entries)
    && (matchIndex < cursor ==> records == [])
    && Prefix(records, Build(ms, if matchIndex < cursor then cursor else matchIndex, capacity - out, records != []))
       == Build(ms, cursor, capacity - HEADER_SIZE, false)
  }

  /** How far the bytes written reach. */
  lemma ProgressBounds(
      ms: seq<Package>, cursor: nat, capacity: nat, matchIndex: nat, out: nat, records: seq<Record>, b: seq<byte>)
    requires Progress(ms, cursor, capacity, matchIndex, out, records, b)
    ensures HEADER_SIZE <= out <= capacity <= |b| && AllOf(records, Entries) && 2 * |records| <= out - HEADER_SIZE
    ensures b[HEADER_SIZE..out] == EncodeAll(records, Entries) && (matchIndex < cursor ==> records == [])
  {
  }

  lemma ProgressAdds(
      ms: seq<Package>, cursor: nat, capacity: nat, i: nat, out: nat, records: seq<Record>, b: seq<byte>,
      r: Record, c: seq<byte>)
    requires Progress(ms, cursor, capacity, i, out, records, b) && cursor <= i < |ms|
    requires var e := MakeEntry(ms[i], ENTRY_MAX);
             && e.Some?
             && if |Encode(e.value)| <= capacity - out then r == e.value
                else records == [] && MakeEntry(ms[i], capacity - out) == Some(r)
    requires |c| == |b| && Countable(r) && r.Entry? && out + |Encode(r)| <= capacity
    requires c[HEADER_SIZE..out] == b[HEADER_SIZE..out] && At(c, out, Encode(r))
    ensures Progress(ms, cursor, capacity, i + 1, out + |Encode(r)|, records + [r], c)
  {
    hide MakeEntry, Encode, AllOf;
    var next := out + |Encode(r)|;
    SingleRecord(r);
    EncodeAllAppend(records, [r], Entries);
    assert c[HEADER_SIZE..next] == c[HEADER_SIZE..out] + c[out..next];
    PrefixCons(records, r, Build(ms, i + 1, capacity - next, true));
  }

  lemma SingleRecord(r: Record)
    requires Countable(r) && r.Entry?
    ensures AllOf([r], Entries) && EncodeAll([r], Entries) == Encode(r)
  {
    assert [r][1..] == [];
    assert Encode(r) + [] == Encode(r);
  }

  /** write_catalog_page. */
  method WriteCatalogPage(
      packages: seq<Package>, opcode: byte, cursor: u16, f: Filter, response: array<byte>) returns (size: int)
    requires |packages| <= CATALOG_MAX && opcode < 0x80 && response.Length <= PACKET_MAX
    modifies response
    ensures response.Length < HEADER_SIZE ==> size == -1
    ensures response.Length >= HEADER_SIZE ==>
              var b := Answer(opcode, Select(packages, f), cursor, response.Length);
              size == |b| && size <= response.Length && response[..size] == b
  {
    hide Build, Select, Matches, MakeEntry, Encode, EncodeAll, Progress, AllOf;
    var capacity := response.Length;
    if capacity < HEADER_SIZE {
      return -1;
    }
    ghost var ms := Select(packages, f);
    ghost var records: seq<Record> := [];
    var matchIndex: u16, nextCursor: u16, entryCount: byte, out: nat := 0, CURSOR_END, 0, HEADER_SIZE;
    StartProgress(ms, cursor, capacity, response[..]);
    SelectNone(packages, f);
    var p := 0;
    var stopped := false;
    while p < |packages| && !stopped
      invariant p <= |packages| && matchIndex == |Select(packages[..p], f)| <= |ms|
      invariant entryCount == |records|
      invariant Progress(ms, cursor, capacity, matchIndex, out, records, response[..])
      invariant !stopped ==> nextCursor == CURSOR_END
      invariant stopped ==> Page(records, nextCursor) == Build(ms, cursor, capacity - HEADER_SIZE, false)
      decreases |packages| - p, !stopped
    {
      ProgressBounds(ms, cursor, capacity, matchIndex, out, records, response[..]);
      SelectAt(packages, f, p);
      var matches := PackageMatches(packages[p], f);
      if !matches {
        p := p + 1;
        continue;
      }
      var entry := new byte[ENTRY_MAX];
      if matchIndex < cursor {
        PassProgress(ms, cursor, capacity, matchIndex, out, records, response[..]);
        matchIndex, p := matchIndex + 1, p + 1;
        continue;
      }
      var entrySize := MakeListEntry(packages[p], entry, ENTRY_MAX);
      if entrySize == 0 {
        SkipProgress(ms, cursor, capacity, matchIndex, out, records, response[..]);
        matchIndex, p := matchIndex + 1, p + 1;
        continue;
      }
      ghost var record := MakeEntry(packages[p], ENTRY_MAX).value;
      if entrySize > capacity - out {
        if entryCount == 0 {
          entrySize := MakeListEntry(packages[p], entry, capacity - out);
          if entrySize == 0 {
            FailProgress(ms, cursor, capacity, matchIndex, out, records, response[..]);
            size := WriteError(opcode, STATUS_TOO_LARGE, response);
            return;
          }
          record := MakeEntry(packages[p], capacity - out).value;
        } else {
          StopProgress(ms, cursor, capacity, matchIndex, out, records, response[..]);
          nextCursor, stopped := matchIndex, true;
          continue;
        }
      }
      ghost var before := response[..];
      CopyInto(response, out, entry[..entrySize]);
      ProgressAdds(ms, cursor, capacity, matchIndex, out, records, before, record, response[..]);
      records := records + [record];
      out, entryCount, matchIndex, p := out + entrySize, entryCount + 1, matchIndex + 1, p + 1;
    }
    if !stopped {
      assert packages[..p] == packages;
      EndProgress(ms, cursor, capacity, matchIndex, out, records, response[..]);
    }
    ProgressBounds(ms, cursor, capacity, matchIndex, out, records, response[..]);
    FinishPage(opcode, nextCursor, entryCount, records, Entries, response, out);
    size := out;
  }

  lemma SelectNone(ps: seq<Package>, f: Filter)
    ensures Select(ps[..0], f) == []
  {
  }

  lemma StartProgress(ms: seq<Package>, cursor: nat, capacity: nat, b: seq<byte>)
    requires HEADER_SIZE <= capacity <= |b|
    ensures Progress(ms, cursor, capacity, 0, HEADER_SIZE, [], b)
  {
    hide Build;
    var r := Build(ms, cursor, capacity - HEADER_SIZE, false);
    if r.Page? {
      assert [] + r.records == r.records;
    }
  }

  lemma PassProgress(
      ms: seq<Package>, cursor: nat, capacity: nat, i: nat, out: nat, records: seq<Record>, b: seq<byte>)
    requires Progress(ms, cursor, capacity, i, out, records, b) && i < cursor
    ensures Progress(ms, cursor, capacity, i + 1, out, records, b)
  {
    hide Build, EncodeAll, AllOf;
  }

  lemma SkipProgress(
      ms: seq<Package>, cursor: nat, capacity: nat, i: nat, out: nat, records: seq<Record>, b: seq<byte>)
    requires Progress(ms, cursor, capacity, i, out, records, b) && cursor <= i < |ms|
    requires MakeEntry(ms[i], ENTRY_MAX).None?
    ensures Progress(ms, cursor, capacity, i + 1, out, records, b)
  {
    hide MakeEntry, Encode;
  }

  lemma StopProgress(
      ms: seq<Package>, cursor: nat, capacity: nat, i: nat, out: nat, records: seq<Record>, b: seq<byte>)
    requires Progress(ms, cursor, capacity, i, out, records, b) && cursor <= i < |ms| && records != []
    requires MakeEntry(ms[i], ENTRY_MAX).Some? && |Encode(MakeEntry(ms[i], ENTRY_MAX).value)| > capacity - out
    ensures Page(records, i) == Build(ms, cursor, capacity - HEADER_SIZE, false)
  {
    hide MakeEntry, Encode;
    assert records + [] == records;
  }

  lemma FailProgress(
      ms: seq<Package>, cursor: nat, capacity: nat, i: nat, out: nat, records: seq<Record>, b: seq<byte>)
    requires Progress(ms, cursor, capacity, i, out, records, b) && cursor <= i < |ms| && records == []
    requires MakeEntry(ms[i], ENTRY_MAX).Some? && |Encode(MakeEntry(ms[i], ENTRY_MAX).value)| > capacity - out
    requires MakeEntry(ms[i], capacity - out).None?
    ensures Failed(STATUS_TOO_LARGE) == Build(ms, cursor, capacity - HEADER_SIZE, false)
  {
    hide MakeEntry, Encode;
  }

  lemma EndProgress(
      ms: seq<Package>, cursor: nat, capacity: nat, i: nat, out: nat, records: seq<Record>, b: seq<byte>)
    requires Progress(ms, cursor, capacity, i, out, records, b) && i == |ms|
    ensures Page(records, CURSOR_END) == Build(ms, cursor, capacity - HEADER_SIZE, false)
  {
    hide MakeEntry, Encode;
    assert records + [] == records;
  }
}
