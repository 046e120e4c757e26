/** INFO: the records of one package, the pages they are written into, and the traversal over 16-bit cursors. */
module InfoPages {
  import opened Bytes
  import Utf8
  import opened Records
  import opened Catalog
  import opened ListPages

  const FIXED: nat := 9
  const INFO_DOWNLOAD: byte := 10

  function RecordCount(p: Package): nat { FIXED + |p.downloads| }

  /** make_string_tlv. */
  function StringTlv(kind: byte, text: seq<byte>, capacity: nat): (r: Option<Record>)
    ensures r.Some? ==> Countable(r.value) && r.value.Tlv? && |Encode(r.value)| <= capacity
  {
    if capacity < 2 then None else Some(Tlv(kind, text[..NameSize(text, capacity - 2)]))
  }

  /** The text append_counted_text writes, or None when there is no room for its count. */
  function CutText(text: seq<byte>, capacity: nat, maximum: nat): (r: Option<seq<byte>>)
    ensures r.Some? ==> |r.value| <= maximum && |r.value| + 1 <= capacity && |r.value| <= 255
    ensures r.None? <==> capacity < 1
  {
    if capacity < 1 then None
    else
      var n := Min(Min(|text|, maximum), Min(capacity - 1, 255));
      Some(text[..Utf8.StepBack(text, n)])
  }

  /** Cutting at a field limit keeps the longest valid prefix that fits the limit. */
  lemma CutTextIsUtf8(text: seq<byte>, capacity: nat, maximum: nat)
    requires Utf8.Valid(text) && capacity >= 1
    ensures var n := |CutText(text, capacity, maximum).value|;
            && CutText(text, capacity, maximum).value == text[..n] && Utf8.Valid(text[..n])
            && forall k | n < k <= Min(|text|, Min(maximum, Min(capacity - 1, 255))) :: !Utf8.Valid(text[..k])
  {
    Utf8.StepBackLongest(text, Min(Min(|text|, maximum), Min(capacity - 1, 255)));
  }

  /** make_download_tlv: id, label and format with their counts, the size and the number of files. The room of each
      text is what the record's capacity leaves in front of the last five bytes. */
  function DownloadTlv(d: Download, capacity: nat): (r: Option<Record>)
    ensures r.Some? ==> Countable(r.value) && r.value.Tlv? && |Encode(r.value)| <= capacity
    ensures capacity >= 202 ==> r.Some?
  {
    if capacity < 10 then None
    else
      var id := CutText(d.id, capacity - 2 - 5, 64);
      if id.None? then None
      else
        var afterId := 3 + |id.value|;
        var caption := CutText(d.caption, capacity - afterId - 5, 96);
        if caption.None? then None
        else
          var afterCaption := afterId + 1 + |caption.value|;
          var format := CutText(d.format, capacity - afterCaption - 5, 32);
          if format.None? then None
          else Some(Tlv(INFO_DOWNLOAD, DownloadValue(id.value, caption.value, format.value, d.size, d.files)))
  }

  function DownloadValue(id: seq<byte>, caption: seq<byte>, format: seq<byte>, size: u32, files: byte): (v: seq<byte>)
    requires |id| <= 64 && |caption| <= 96 && |format| <= 32
    ensures |v| == |id| + |caption| + |format| + 8
  {
    ([|id|] + id) + ([|caption|] + caption) + ([|format|] + format) + (WriteU32(size) + [files])
  }

  /** make_info_record: the record with number `i` in at most `capacity` bytes. */
  function MakeInfo(p: Package, i: nat, capacity: nat): (r: Option<Record>)
    ensures r.Some? ==> Countable(r.value) && r.value.Tlv? && |Encode(r.value)| <= capacity
    ensures capacity >= 202 && i < RecordCount(p) ==> r.Some?
  {
    if i == 0 then StringTlv(1, p.id, capacity)
    else if i == 1 then StringTlv(2, p.name, capacity)
    else if i == 2 then StringTlv(3, p.vendor, capacity)
    else if i == 3 then StringTlv(4, p.platformId, capacity)
    else if i == 4 then StringTlv(5, p.platformName, capacity)
    else if i == 5 then StringTlv(6, p.version, capacity)
    else if i == 6 then (if capacity < 4 then None else Some(Tlv(7, WriteU16(p.year))))
    else if i == 7 then (if capacity < 3 then None else Some(Tlv(8, [p.rating])))
    else if i == 8 then StringTlv(9, p.description, capacity)
    else if i - FIXED >= |p.downloads| then None
    else DownloadTlv(p.downloads[i - FIXED], capacity)
  }

  /** The record with number `i` as a full page carries it. */
  function InfoRecord(p: Package, i: nat): (r: Record)
    requires i < RecordCount(p)
    ensures Countable(r) && r.Tlv? && |Encode(r)| <= ENTRY_MAX
  {
    MakeInfo(p, i, ENTRY_MAX).value
  }

  /** Records are told apart by their type byte: fixed ones by their number, downloads all by the last type. */
  lemma InfoKinds(p: Package, i: nat)
    requires i < RecordCount(p)
    ensures InfoRecord(p, i).kind == if i < FIXED then i + 1 else INFO_DOWNLOAD
  {
  }

  /** The page loop from record `cursor` on. The cursor is a 16-bit counter. */
  function InfoBuild(p: Package, cursor: u16, room: nat, taken: bool): (r: PageResult)
    ensures r.Page? ==> AllOf(r.records, Values) && r.next <= CURSOR_END
    decreases room
  {
    if cursor >= RecordCount(p) then Page([], CURSOR_END)
    else
      match MakeInfo(p, cursor, ENTRY_MAX)
      case None => Failed(STATUS_INTERNAL_ERROR)
      case Some(r) =>
        if |Encode(r)| <= room then Cons(r, InfoBuild(p, (cursor + 1) % 0x1_0000, room - |Encode(r)|, true))
        else if taken then Page([], cursor)
        else
          match MakeInfo(p, cursor, room)
          case None => Failed(STATUS_TOO_LARGE)
          case Some(q) => Cons(q, InfoBuild(p, (cursor + 1) % 0x1_0000, room - |Encode(q)|, true))
  }

  lemma {:induction false} InfoFits(p: Package, cursor: u16, room: nat, taken: bool)
    ensures var r := InfoBuild(p, cursor, room, taken);
            r.Page? ==> |EncodeAll(r.records, Values)| <= room && 2 * |r.records| <= room
    decreases room, 1
  {
    hide MakeInfo, Encode, RecordCount;
    var r := InfoBuild(p, cursor, room, taken);
    if r.Page? && r.records != [] {
      var big := MakeInfo(p, cursor, ENTRY_MAX).value;
      InfoConsFits(p, cursor, room, if |Encode(big)| <= room then big else MakeInfo(p, cursor, room).value);
    }
  }

  lemma {:induction false} InfoConsFits(p: Package, cursor: u16, room: nat, r: Record)
    requires Countable(r) && r.Tlv? && |Encode(r)| <= room
    ensures var c := Cons(r, InfoBuild(p, (cursor + 1) % 0x1_0000, room - |Encode(r)|, true));
            c.Page? ==> AllOf(c.records, Values) && |EncodeAll(c.records, Values)| <= room && 2 * |c.records| <= room
    decreases room, 0
  {
    hide MakeInfo, Encode, RecordCount;
    InfoFits(p, (cursor + 1) % 0x1_0000, room - |Encode(r)|, true);
    var rest := InfoBuild(p, (cursor + 1) % 0x1_0000, room - |Encode(r)|, true);
    if rest.Page? {
      EncodeCons(r, rest.records, Values);
    }
  }

  /** A page that fits into a packet. */
  predicate Sendable(r: PageResult)
  {
    r.Page? ==> AllOf(r.records, Values) && r.next <= CURSOR_END && |r.records| <= 255
  }

  lemma InfoSendable(p: Package, cursor: u16, room: nat)
    requires room <= PACKET_MAX
    ensures Sendable(InfoBuild(p, cursor, room, false))
  {
    hide InfoBuild;
    InfoFits(p, cursor, room, false);
  }

  /** The bytes of one answer to INFO. */
  function InfoAnswer(opcode: byte, p: Package, cursor: u16, capacity: nat): (b: seq<byte>)
    requires opcode < 0x80 && capacity <= PACKET_MAX
  {
    if capacity < HEADER_SIZE || cursor > RecordCount(p) then [opcode + RESPONSE_BIT, STATUS_BAD_REQUEST]
    else
      InfoSendable(p, cursor, capacity - HEADER_SIZE);
      InfoBytes(opcode, InfoBuild(p, cursor, capacity - HEADER_SIZE, false))
  }

  function InfoBytes(opcode: byte, r: PageResult): seq<byte>
    requires opcode < 0x80 && Sendable(r)
  {
    match r
    case Failed(status) => [opcode + RESPONSE_BIT, status]
    case Page(records, next) => PageBytes(opcode, next, records, Values)
  }

  // ----- traversal -----------------------------------------------------------------------------------------------

  /** `rs` are the records from number `from` on, counted modulo 65536. */
  ghost predicate Numbered(p: Package, rs: seq<Record>, from: nat)
  {
    forall k | 0 <= k < |rs| ::
      (from + k) % 0x1_0000 < RecordCount(p) && rs[k] == InfoRecord(p, (from + k) % 0x1_0000)
  }

  lemma ModShift(a: nat, k: nat)
    ensures (a % 0x1_0000 + k) % 0x1_0000 == (a + k) % 0x1_0000
  {
  }

  lemma LaterRecord(p: Package, b: seq<Record>, from: nat, n: nat, k: nat)
    requires Numbered(p, b, (from + n) % 0x1_0000) && n <= k < n + |b|
    ensures (from + k) % 0x1_0000 < RecordCount(p) && b[k - n] == InfoRecord(p, (from + k) % 0x1_0000)
  {
    hide InfoRecord, RecordCount;
    NumberedAt(p, b, (from + n) % 0x1_0000, k - n);
    ModShift(from + n, k - n);
  }

  lemma AppendedRecord(p: Package, a: seq<Record>, b: seq<Record>, from: nat, k: nat)
    requires Numbered(p, a, from) && Numbered(p, b, (from + |a|) % 0x1_0000) && k < |a| + |b|
    ensures (from + k) % 0x1_0000 < RecordCount(p) && (a + b)[k] == InfoRecord(p, (from + k) % 0x1_0000)
  {
    if k < |a| {
      NumberedAt(p, a, from, k);
    } else {
      hide Numbered, InfoRecord, RecordCount;
      LaterRecord(p, b, from, |a|, k);
    }
  }

  lemma NumberedAt(p: Package, rs: seq<Record>, from: nat, k: nat)
    requires Numbered(p, rs, from) && k < |rs|
    ensures (from + k) % 0x1_0000 < RecordCount(p) && rs[k] == InfoRecord(p, (from + k) % 0x1_0000)
  {
    hide InfoRecord, RecordCount;
  }

  lemma NumberedAppend(p: Package, a: seq<Record>, b: seq<Record>, from: nat)
    requires Numbered(p, a, from) && Numbered(p, b, (from + |a|) % 0x1_0000)
    ensures Numbered(p, a + b, from)
  {
    forall k | 0 <= k < |a + b|
      ensures (from + k) % 0x1_0000 < RecordCount(p) && (a + b)[k] == InfoRecord(p, (from + k) % 0x1_0000)
    {
      hide *;
      AppendedRecord(p, a, b, from, k);
    }
    hide InfoRecord, RecordCount;
  }

  lemma NumberedNone(p: Package, i: nat)
    ensures Numbered(p, [], i)
  {
  }

  lemma NumberedOne(p: Package, i: u16)
    requires i < RecordCount(p)
    ensures Numbered(p, [], i) && Numbered(p, [InfoRecord(p, i)], i)
  {
    hide InfoRecord, RecordCount;
  }

  /** One turn of the page loop where a record always fits an empty page. */
  lemma InfoTurn(p: Package, cursor: u16, room: nat, taken: bool)
    requires taken || room >= ENTRY_MAX
    ensures InfoBuild(p, cursor, room, taken)
            == if cursor >= RecordCount(p) then Page([], CURSOR_END)
               else
                 var r := InfoRecord(p, cursor);
                 if |Encode(r)| <= room then Cons(r, InfoBuild(p, (cursor + 1) % 0x1_0000, room - |Encode(r)|, true))
                 else Page([], cursor)
  {
    hide MakeInfo, Encode, InfoRecord, RecordCount, Cons;
    if cursor < RecordCount(p) {
      InfoRecordMade(p, cursor);
    }
  }

  /** A full page holds consecutive records, numbered modulo 65536, and stops before one that does not fit or after
      the last one. */
  lemma {:induction false} InfoTakes(p: Package, cursor: u16, room: nat, taken: bool)
    requires cursor <= RecordCount(p) && (taken || room >= ENTRY_MAX)
    ensures var r := InfoBuild(p, cursor, room, taken);
            && r.Page?
            && (!taken && cursor < RecordCount(p) ==> r.records != [])
            && Numbered(p, r.records, cursor)
            && (RecordCount(p) <= 0xFFFF ==>
                  && cursor + |r.records| <= RecordCount(p)
                  && (if cursor + |r.records| == RecordCount(p) then r.next == CURSOR_END
                      else r.next == cursor + |r.records|))
            && (RecordCount(p) > 0xFFFF ==> r.next == (cursor + |r.records|) % 0x1_0000)
    decreases room
  {
    hide InfoBuild, Encode, InfoRecord, Numbered, RecordCount;
    InfoTurn(p, cursor, room, taken);
    if cursor == RecordCount(p) {
      NumberedNone(p, cursor);
    } else {
      NumberedOne(p, cursor);
      var r := InfoRecord(p, cursor);
      if |Encode(r)| <= room {
        var up: u16 := (cursor + 1) % 0x1_0000;
        InfoTakes(p, up, room - |Encode(r)|, true);
        var rest := InfoBuild(p, up, room - |Encode(r)|, true);
        NumberedAppend(p, [r], rest.records, cursor);
        ModShift(cursor + 1, |rest.records|);
      }
    }
  }

  /** A page goes on as long as it can: where it stops, the next record does not fit behind what it holds. */
  lemma {:induction false} InfoFull(p: Package, cursor: u16, room: nat, taken: bool)
    requires cursor <= RecordCount(p) <= 0xFFFF && (taken || room >= ENTRY_MAX)
    ensures var r := InfoBuild(p, cursor, room, taken);
            r.Page? && r.next != CURSOR_END ==>
              r.next < RecordCount(p) && |EncodeAll(r.records, Values)| + |Encode(InfoRecord(p, r.next))| > room
    decreases room
  {
    hide InfoBuild, Encode, InfoRecord, RecordCount;
    InfoTurn(p, cursor, room, taken);
    if cursor < RecordCount(p) {
      var r := InfoRecord(p, cursor);
      if |Encode(r)| <= room {
        InfoFull(p, cursor + 1, room - |Encode(r)|, true);
        var rest := InfoBuild(p, cursor + 1, room - |Encode(r)|, true);
        if rest.Page? {
          EncodeCons(r, rest.records, Values);
        }
      }
    }
  }

  lemma InfoRecordMade(p: Package, i: nat)
    requires i < RecordCount(p)
    ensures MakeInfo(p, i, ENTRY_MAX) == Some(InfoRecord(p, i))
  {
  }

  /** A client after at most `pages` answers. */
  function ClientInfo(opcode: byte, p: Package, pages: nat): (w: Walk)
    requires opcode < 0x80
  {
    if pages == 0 then Walk([], false, 0)
    else
      var w := ClientInfo(opcode, p, pages - 1);
      if w.finished then w else Turned(Values, w, InfoAnswer(opcode, p, w.cursor, PACKET_MAX))
  }

  /** All records of the package, once each, in order. */
  function AllRecords(p: Package): (r: seq<Record>)
    ensures |r| == RecordCount(p)
  {
    seq(RecordCount(p), i requires 0 <= i < RecordCount(p) => InfoRecord(p, i))
  }

  lemma {:induction false} InfoStep(opcode: byte, p: Package, cursor: u16)
    requires opcode < 0x80 && cursor <= RecordCount(p)
    ensures var r := InfoBuild(p, cursor, PACKET_MAX - HEADER_SIZE, false);
            var b := InfoAnswer(opcode, p, cursor, PACKET_MAX);
            && r.Page? && r.next <= CURSOR_END
            && |b| >= HEADER_SIZE && b[1] == STATUS_OK && ReadU16(b, 2) == r.next
            && ReadAll(Values, b, HEADER_SIZE, |b|, b[4]) == Some(r.records)
  {
    hide InfoBuild, PageBytes, ReadAll;
    InfoTakes(p, cursor, PACKET_MAX - HEADER_SIZE, false);
    InfoFits(p, cursor, PACKET_MAX - HEADER_SIZE, false);
    var r := InfoBuild(p, cursor, PACKET_MAX - HEADER_SIZE, false);
    PageReadBack(opcode, r.next, r.records, Values);
  }

  /** What the client has seen is the records counted modulo 65536 from 0, and it stops at the end of the records or
      at a page boundary that happens to be the end marker. */
  lemma {:induction false} WalkCounts(opcode: byte, p: Package, pages: nat)
    requires opcode < 0x80
    ensures var w := ClientInfo(opcode, p, pages);
            && Numbered(p, w.seen, 0)
            && (RecordCount(p) <= 0xFFFF ==>
                  |w.seen| <= RecordCount(p)
                  && (if w.finished then |w.seen| == RecordCount(p) else w.cursor == |w.seen| < RecordCount(p)))
            && (RecordCount(p) > 0xFFFF ==> w.cursor == |w.seen| % 0x1_0000 && (w.finished <==> w.cursor == CURSOR_END))
  {
    hide InfoBuild, InfoAnswer, InfoRecord, ReadAll, ReadU16, Numbered;
    if pages == 0 {
      NumberedNone(p, 0);
    } else {
      WalkCounts(opcode, p, pages - 1);
      var w := ClientInfo(opcode, p, pages - 1);
      if !w.finished {
        InfoStep(opcode, p, w.cursor);
        InfoTakes(p, w.cursor, PACKET_MAX - HEADER_SIZE, false);
        var r := InfoBuild(p, w.cursor, PACKET_MAX - HEADER_SIZE, false);
        NumberedAppend(p, w.seen, r.records, 0);
        ModShift(|w.seen|, |r.records|);
      }
    }
  }

  /** The traversal always makes progress, so with fewer than 65536 records it ends. */
  lemma {:induction false} WalkEnds(opcode: byte, p: Package, pages: nat)
    requires opcode < 0x80 && RecordCount(p) <= 0xFFFF
    ensures var w := ClientInfo(opcode, p, pages); w.finished || |w.seen| >= pages
  {
    hide InfoBuild, InfoAnswer, InfoRecord, ReadAll, ReadU16, Numbered, AllOf;
    if pages > 0 {
      WalkEnds(opcode, p, pages - 1);
      WalkCounts(opcode, p, pages - 1);
      var w := ClientInfo(opcode, p, pages - 1);
      if !w.finished {
        InfoStep(opcode, p, w.cursor);
        InfoTakes(p, w.cursor, PACKET_MAX - HEADER_SIZE, false);
      }
    }
  }

  /** The client finishes having seen exactly all records. */
  ghost predicate Traversed(opcode: byte, p: Package)
    requires opcode < 0x80
  {
    exists pages: nat :: ClientInfo(opcode, p, pages).finished && ClientInfo(opcode, p, pages).seen == AllRecords(p)
  }

  /** Following INFO cursors from 0 shows every record once, whole and in order, exactly when the package has at most
      65535 records, that is at most 65526 downloads. Beyond that the 16-bit cursor runs into its own end marker or
      around to the first record. */
  lemma InfoTraversal(opcode: byte, p: Package)
    requires opcode < 0x80
    ensures Traversed(opcode, p) <==> RecordCount(p) <= 0xFFFF
  {
    hide ClientInfo, InfoRecord, Numbered, AllRecords;
    if RecordCount(p) <= 0xFFFF {
      var pages := RecordCount(p) + 1;
      WalkEnds(opcode, p, pages);
      WalkCounts(opcode, p, pages);
      AllSeen(p, ClientInfo(opcode, p, pages).seen);
    } else if Traversed(opcode, p) {
      var pages: nat :| ClientInfo(opcode, p, pages).finished && ClientInfo(opcode, p, pages).seen == AllRecords(p);
      WalkCounts(opcode, p, pages);
      NeverAll(p, ClientInfo(opcode, p, pages).seen);
    }
  }

  lemma AllSeen(p: Package, seen: seq<Record>)
    requires |seen| == RecordCount(p) <= 0xFFFF && Numbered(p, seen, 0)
    ensures seen == AllRecords(p)
  {
    hide InfoRecord;
    forall k | 0 <= k < |seen|
      ensures seen[k] == AllRecords(p)[k]
    {
      assert (0 + k) % 0x1_0000 == k;
    }
  }

  /** One download too many: no client sees all 65536 records of such a package. */
  lemma TooManyDownloads(opcode: byte)
    requires opcode < 0x80
    ensures var p := Package([], [], [], [], [], [], [], [], [], 0, 0, seq(65527, i => Download([], [], [], 0, 0)));
            !Traversed(opcode, p)
  {
    hide Traversed;
    var downloads := seq(65527, i => Download([], [], [], 0, 0));
    InfoTraversal(opcode, Package([], [], [], [], [], [], [], [], [], 0, 0, downloads));
  }

  lemma NeverAll(p: Package, seen: seq<Record>)
    requires RecordCount(p) > 0xFFFF && Numbered(p, seen, 0) && |seen| % 0x1_0000 == CURSOR_END
    ensures seen != AllRecords(p)
  {
    if seen == AllRecords(p) {
      assert |seen| == RecordCount(p) != 0x1_0000;
      assert seen[0x1_0000] == InfoRecord(p, (0 + 0x1_0000) % 0x1_0000);
      assert seen[0x1_0000] == AllRecords(p)[0x1_0000] == InfoRecord(p, 0x1_0000);
      InfoKinds(p, 0);
      InfoKinds(p, 0x1_0000);
      assert false;
    }
  }
}
