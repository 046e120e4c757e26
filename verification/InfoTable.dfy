/** What the entries and records carry, against the tables of the protocol: which field stands under which type, where
    the parts of a download record are, and how far texts are cut in any room. */
module InfoTable {
  import opened Bytes
  import Utf8
  import opened Records
  import opened Catalog
  import opened ListPages
  import opened InfoPages

  /** `value` is what is left of a text in `room` bytes: all of it if it fits, and of UTF-8 text that does not fit the
      longest prefix that ends with a whole character. */
  ghost predicate Kept(text: seq<byte>, value: seq<byte>, room: nat)
  {
    && |value| <= room && value <= text && (|text| <= room ==> value == text)
    && (Utf8.Valid(text) ==>
          Utf8.Valid(value) && forall k | |value| < k <= |text| && k <= room :: !Utf8.Valid(text[..k]))
  }

  lemma NameKept(text: seq<byte>, room: nat)
    requires room <= 255
    ensures Kept(text, text[..NameSize(text, room)], room)
  {
    hide Utf8.Valid, Utf8.StepBack;
    if Utf8.Valid(text) {
      LongestName(text, room);
    }
  }

  /** A record of the table: its type, and its text as far as there is room for it. */
  ghost predicate Carries(r: Option<Record>, kind: byte, text: seq<byte>, capacity: nat)
    requires 2 <= capacity
  {
    r.Some? && r.value.Tlv? && r.value.kind == kind && Kept(text, r.value.value, capacity - 2)
  }

  lemma TextCarried(kind: byte, text: seq<byte>, capacity: nat)
    requires 2 <= capacity <= 257
    ensures Carries(StringTlv(kind, text, capacity), kind, text, capacity)
  {
    hide Kept, NameSize;
    NameKept(text, capacity - 2);
  }

  /** The fixed records in cursor order, in any room that has space for a type, a count and two bytes. */
  lemma FixedTable(p: Package, capacity: nat)
    requires 4 <= capacity <= 257
    ensures Carries(MakeInfo(p, 0, capacity), 0x01, p.id, capacity)
    ensures Carries(MakeInfo(p, 1, capacity), 0x02, p.name, capacity)
    ensures Carries(MakeInfo(p, 2, capacity), 0x03, p.vendor, capacity)
    ensures Carries(MakeInfo(p, 3, capacity), 0x04, p.platformId, capacity)
    ensures Carries(MakeInfo(p, 4, capacity), 0x05, p.platformName, capacity)
    ensures Carries(MakeInfo(p, 5, capacity), 0x06, p.version, capacity)
    ensures MakeInfo(p, 6, capacity) == Some(Tlv(0x07, [p.year % 0x100, p.year / 0x100]))
    ensures MakeInfo(p, 7, capacity) == Some(Tlv(0x08, [p.rating]))
    ensures Carries(MakeInfo(p, 8, capacity), 0x09, p.description, capacity)
  {
    hide StringTlv, Carries, Countable, Encode;
    TextCarried(0x01, p.id, capacity);
    TextCarried(0x02, p.name, capacity);
    TextCarried(0x03, p.vendor, capacity);
    TextCarried(0x04, p.platformId, capacity);
    TextCarried(0x05, p.platformName, capacity);
    TextCarried(0x06, p.version, capacity);
    TextCarried(0x09, p.description, capacity);
  }

  // ----- download records ----------------------------------------------------------------------------------------

  /** A counted text at `at` and the position behind it. */
  function CountedText(b: seq<byte>, at: nat): (r: Option<(seq<byte>, nat)>)
    ensures r.Some? ==> at < r.value.1 <= |b|
  {
    if at >= |b| || at + 1 + b[at] > |b| then None else Some((b[at + 1..at + 1 + b[at]], at + 1 + b[at]))
  }

  /** The value of a download record, taken apart along the table of the protocol. */
  function ReadDownload(b: seq<byte>): Option<Download>
  {
    var id := CountedText(b, 0);
    if id.None? then None
    else
      var caption := CountedText(b, id.value.1);
      if caption.None? then None
      else
        var format := CountedText(b, caption.value.1);
        if format.None? || |b| != format.value.1 + 5 then None
        else
          var at := format.value.1;
          Some(Download(id.value.0, caption.value.0, format.value.0, ReadU32(b, at), b[at + 4]))
  }

  lemma CountedBack(b: seq<byte>, at: nat, text: seq<byte>)
    requires |text| <= 255 && At(b, at, [|text|] + text)
    ensures CountedText(b, at) == Some((text, at + 1 + |text|))
  {
    AtAppend(b, at, [|text|], text);
    assert b[at] == b[at..at + 1][0];
  }

  /** A download record reads back as the download it was made from. */
  lemma DownloadReadBack(d: Download)
    requires |d.id| <= 64 && |d.caption| <= 96 && |d.format| <= 32
    ensures ReadDownload(DownloadValue(d.id, d.caption, d.format, d.size, d.files)) == Some(d)
  {
    hide ReadU32, WriteU32, CountedText, At;
    var b := DownloadValue(d.id, d.caption, d.format, d.size, d.files);
    var x, y, z, w := [|d.id|] + d.id, [|d.caption|] + d.caption, [|d.format|] + d.format, WriteU32(d.size);
    AtWhole(b);
    Spread(b, x, y, z, w, d.files);
    CountedBack(b, 0, d.id);
    CountedBack(b, |x|, d.caption);
    CountedBack(b, |x| + |y|, d.format);
    U32RoundTrip(b, |x| + |y| + |z|, d.size);
  }

  /** Where five pieces stand. */
  lemma Spread(b: seq<byte>, x: seq<byte>, y: seq<byte>, z: seq<byte>, w: seq<byte>, last: byte)
    requires At(b, 0, x + y + z + (w + [last])) && |b| == |x| + |y| + |z| + |w| + 1
    ensures At(b, 0, x) && At(b, |x|, y) && At(b, |x| + |y|, z) && At(b, |x| + |y| + |z|, w) && b[|b| - 1] == last
  {
    AtEnds(b, |x| + |y| + |z| + |w|, last);
    hide At;
    AtAppend(b, 0, x + y + z, w + [last]);
    AtAppend(b, 0, x + y, z);
    AtAppend(b, 0, x, y);
    AtAppend(b, |x| + |y| + |z|, w, [last]);
  }

  lemma AtEnds(b: seq<byte>, at: nat, last: byte)
    ensures At(b, at, [last]) ==> at < |b| && b[at] == last
  {
    if At(b, at, [last]) {
      assert b[at] == b[at..at + 1][0];
    }
  }

  // ----- small pages ---------------------------------------------------------------------------------------------

  /** An entry in any room: the id is never shortened, and the name is kept as far as the rest of the room goes. */
  lemma EntryKept(p: Package, capacity: nat)
    requires capacity <= 257
    ensures MakeEntry(p, capacity).Some? <==> 2 + |p.id| <= capacity
    ensures 2 + |p.id| <= capacity ==>
              var e := MakeEntry(p, capacity).value;
              e.Entry? && e.id == p.id && Kept(p.name, e.name, capacity - 2 - |p.id|)
  {
    hide Kept, NameSize, Encode;
    if 2 + |p.id| <= capacity {
      NameKept(p.name, capacity - 2 - |p.id|);
    }
  }

  /** On a page too small for the entry in turn: the page begins with that entry in the room there is, or, if not even
      its id fits, there is no page but TOO_LARGE. */
  lemma FirstEntry(ms: seq<Package>, i: nat, room: nat)
    requires i < |ms| <= CATALOG_MAX && |ms[i].id| <= 247 && room < ENTRY_MAX
    ensures var r := Build(ms, i, room, false);
            if room < 2 + |ms[i].id| then r == Failed(0x04)
            else
              && r.Page? && r.records != [] && r.records[0].Entry? && r.records[0].id == ms[i].id
              && Kept(ms[i].name, r.records[0].name, room - 2 - |ms[i].id|)
  {
    hide Kept, MakeEntry, Encode, Countable, AllOf;
    EntryKept(ms[i], ENTRY_MAX);
    EntryKept(ms[i], room);
    var big := MakeEntry(ms[i], ENTRY_MAX).value;
    EntrySize(big);
    if |Encode(big)| <= room {
      BuildTakes(ms, i + 1, room - |Encode(big)|, true);
      KeptLess(ms[i].name, big.name, 247 - |ms[i].id|, room - 2 - |ms[i].id|);
    } else if 2 + |ms[i].id| <= room {
      BuildTakes(ms, i + 1, room - |Encode(MakeEntry(ms[i], room).value)|, true);
    }
  }

  lemma EntrySize(e: Record)
    requires e.Entry? && Countable(e)
    ensures |Encode(e)| == 2 + |e.id| + |e.name|
  {
  }

  /** What is kept in more room and fits less room is also what is kept there. */
  lemma KeptLess(text: seq<byte>, value: seq<byte>, room: nat, less: nat)
    requires Kept(text, value, room) && |value| <= less <= room
    ensures Kept(text, value, less)
  {
    hide Utf8.Valid;
  }

  /** On an INFO page too small for a whole record buffer: the page begins with the record in turn, whole if it fits and
      else made for the room there is; if that cannot be done there is no page but TOO_LARGE. */
  lemma FirstRecord(p: Package, cursor: u16, room: nat)
    requires cursor < RecordCount(p) && room < ENTRY_MAX
    ensures var r, whole := InfoBuild(p, cursor, room, false), InfoRecord(p, cursor);
            var cut := if |Encode(whole)| <= room then Some(whole) else MakeInfo(p, cursor, room);
            if cut.None? then r == Failed(0x04) else r.Page? && r.records != [] && r.records[0] == cut.value
  {
    hide MakeInfo, InfoRecord, Encode, AllOf, Countable, Numbered;
    InfoRecordMade(p, cursor);
    var whole := InfoRecord(p, cursor);
    var up: u16 := (cursor + 1) % 0x1_0000;
    if |Encode(whole)| <= room {
      InfoTakes(p, up, room - |Encode(whole)|, true);
    } else if MakeInfo(p, cursor, room).Some? {
      InfoTakes(p, up, room - |Encode(MakeInfo(p, cursor, room).value)|, true);
    }
  }

  /** Cursors behind the end: INFO answers one just behind the last record, and LIST and SEARCH every one behind the
      last match, with an empty last page; INFO refuses those further out. */
  lemma CursorsBehind(opcode: byte, p: Package, ms: seq<Package>, cursor: u16, capacity: nat)
    requires opcode < 0x80 && 5 <= capacity <= 255 && |ms| <= CATALOG_MAX
    ensures cursor == RecordCount(p) ==> InfoAnswer(opcode, p, cursor, capacity) == [0x80 + opcode, 0, 0xFF, 0xFF, 0]
    ensures cursor > RecordCount(p) ==> InfoAnswer(opcode, p, cursor, capacity) == [0x80 + opcode, 1]
    ensures cursor >= |ms| ==> Answer(opcode, ms, cursor, capacity) == [0x80 + opcode, 0, 0xFF, 0xFF, 0]
  {
    hide MakeInfo, MakeEntry;
  }
}
