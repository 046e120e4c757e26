/** Filesystem LIST: one page of a directory, and the traversal that follows the cursors. */
module FsList {
  import opened Bytes
  import opened Paths
  import opened Records
  import ListPages

  const FS_RECORD_MAX: nat := 249
  const FS_NAME_MAX: nat := 243

  const FS_OK: byte := 0x00
  const FS_BAD_REQUEST: byte := 0x01
  const FS_NOT_FOUND: byte := 0x02
  const FS_NOT_DIRECTORY: byte := 0x03
  const FS_IS_DIRECTORY: byte := 0x04
  const FS_ACCESS_DENIED: byte := 0x05
  const FS_EXISTS: byte := 0x06
  const FS_TOO_LARGE: byte := 0x07
  const FS_NOT_EMPTY: byte := 0x08
  const FS_READ_ONLY: byte := 0x09
  const FS_NO_SPACE: byte := 0x0A
  const FS_IO_ERROR: byte := 0x0B

  /** The errno values the protocol tells apart. */
  datatype Errno =
    | NoError | ENOENT | ENOTDIR | EISDIR | EACCES | EPERM | ELOOP | EEXIST | ENAMETOOLONG | EOVERFLOW | EFBIG
    | ENOTEMPTY | EROFS | ENOSPC | EDQUOT | OtherError

  function StatusFromErrno(e: Errno): byte
  {
    match e
    case ENOENT => FS_NOT_FOUND
    case ENOTDIR => FS_NOT_DIRECTORY
    case EISDIR => FS_IS_DIRECTORY
    case EACCES => FS_ACCESS_DENIED
    case EPERM => FS_ACCESS_DENIED
    case ELOOP => FS_ACCESS_DENIED
    case EEXIST => FS_EXISTS
    case ENAMETOOLONG => FS_TOO_LARGE
    case EOVERFLOW => FS_TOO_LARGE
    case EFBIG => FS_TOO_LARGE
    case ENOTEMPTY => FS_NOT_EMPTY
    case EROFS => FS_READ_ONLY
    case ENOSPC => FS_NO_SPACE
    case EDQUOT => FS_NO_SPACE
    case _ => FS_IO_ERROR
  }

  /** What fstatat says about an entry. */
  datatype Stat = StatOk(kind: byte, size: u32) | StatFail(errno: Errno)

  datatype Dirent = Dirent(name: seq<byte>, stat: Stat)

  /** A directory stream: its entries in order and the errno it ends with. */
  datatype Listing = Listing(entries: seq<Dirent>, end: Errno)

  predicate Hidden(e: Dirent) { e.name == [DOT] || e.name == [DOT, DOT] }

  function RecordOf(e: Dirent): (r: Record)
    requires |e.name| <= 255 && e.stat.StatOk?
    ensures Countable(r) && r.File?
  {
    File(e.stat.kind, e.name, e.stat.size)
  }

  lemma RecordSize(e: Dirent)
    requires |e.name| <= 255 && e.stat.StatOk?
    ensures |Encode(RecordOf(e))| == 6 + |e.name|
  {
  }

  type PageResult = ListPages.PageResult

  /** The page loop over the remaining entries. The index is a 16-bit counter that runs beside the entries. */
  function Fill(es: seq<Dirent>, end: Errno, index: u16, cursor: u16, room: nat, taken: bool): (r: PageResult)
    ensures r.Page? ==> AllOf(r.records, Directory) && r.next <= CURSOR_END
    decreases |es|
  {
    if es == [] then
      if end == NoError then ListPages.Page([], CURSOR_END) else ListPages.Failed(StatusFromErrno(end))
    else
      var e := es[0];
      if Hidden(e) then Fill(es[1..], end, index, cursor, room, taken)
      else if index < cursor then Fill(es[1..], end, (index + 1) % 0x1_0000, cursor, room, taken)
      else if |e.name| > 255 || 6 + |e.name| > FS_RECORD_MAX then ListPages.Failed(FS_TOO_LARGE)
      else if e.stat.StatFail? then ListPages.Failed(StatusFromErrno(e.stat.errno))
      else if 6 + |e.name| > room then
        if taken then ListPages.Page([], index) else ListPages.Failed(FS_TOO_LARGE)
      else
        ListPages.Cons(RecordOf(e), Fill(es[1..], end, (index + 1) % 0x1_0000, cursor, room - 6 - |e.name|, true))
  }

  /** One turn of the loop. */
  lemma FillTurn(es: seq<Dirent>, end: Errno, index: u16, cursor: u16, room: nat, taken: bool)
    requires es != []
    ensures var e, rest, up := es[0], es[1..], (index + 1) % 0x1_0000;
            Fill(es, end, index, cursor, room, taken)
            == if Hidden(e) then Fill(rest, end, index, cursor, room, taken)
               else if index < cursor then Fill(rest, end, up, cursor, room, taken)
               else if 6 + |e.name| > FS_RECORD_MAX then ListPages.Failed(FS_TOO_LARGE)
               else if e.stat.StatFail? then ListPages.Failed(StatusFromErrno(e.stat.errno))
               else if 6 + |e.name| > room then
                 (if taken then ListPages.Page([], index) else ListPages.Failed(FS_TOO_LARGE))
               else ListPages.Cons(RecordOf(e), Fill(rest, end, up, cursor, room - 6 - |e.name|, true))
  {
    hide Hidden, StatusFromErrno, RecordOf, ListPages.Cons, AllOf;
  }

  /** The entry whose failed fstatat ends the loop, if one does. */
  function StatStop(es: seq<Dirent>, index: u16, cursor: u16, room: nat, taken: bool): (r: Option<nat>)
    ensures r.Some? ==> r.value < |es| && es[r.value].stat.StatFail?
    decreases |es|
  {
    if es == [] then None
    else
      var e := es[0];
      if Hidden(e) then Shifted(1, StatStop(es[1..], index, cursor, room, taken))
      else if index < cursor then Shifted(1, StatStop(es[1..], (index + 1) % 0x1_0000, cursor, room, taken))
      else if |e.name| > 255 || 6 + |e.name| > FS_RECORD_MAX then None
      else if e.stat.StatFail? then Some(0)
      else if 6 + |e.name| > room then None
      else Shifted(1, StatStop(es[1..], (index + 1) % 0x1_0000, cursor, room - 6 - |e.name|, true))
  }

  function Shifted(n: nat, r: Option<nat>): Option<nat> { if r.None? then None else Some(n + r.value) }

  /** Such a loop makes no page: its own status would be that of fstatat. */
  lemma {:induction false} StatStopFails(es: seq<Dirent>, end: Errno, index: u16, cursor: u16, room: nat, taken: bool)
    requires StatStop(es, index, cursor, room, taken).Some?
    ensures var k := StatStop(es, index, cursor, room, taken).value;
            Fill(es, end, index, cursor, room, taken) == ListPages.Failed(StatusFromErrno(es[k].stat.errno))
    decreases |es|
  {
    hide Fill, StatusFromErrno, Hidden, RecordOf;
    FillTurn(es, end, index, cursor, room, taken);
    var e, up := es[0], (index + 1) % 0x1_0000;
    if Hidden(e) {
      StatStopFails(es[1..], end, index, cursor, room, taken);
    } else if index < cursor {
      StatStopFails(es[1..], end, up, cursor, room, taken);
    } else if e.stat.StatOk? {
      StatStopFails(es[1..], end, up, cursor, room - 6 - |e.name|, true);
    }
  }

  lemma NoBytes()
    ensures AllOf([], Directory) && EncodeAll([], Directory) == []
  {
  }

  lemma FillEmpty(end: Errno, index: u16, cursor: u16, room: nat, taken: bool)
    ensures Fill([], end, index, cursor, room, taken)
            == if end == NoError then ListPages.Page([], CURSOR_END) else ListPages.Failed(StatusFromErrno(end))
  {
  }

  lemma {:induction false} FillFits(es: seq<Dirent>, end: Errno, index: u16, cursor: u16, room: nat, taken: bool)
    ensures var r := Fill(es, end, index, cursor, room, taken);
            r.Page? ==> |EncodeAll(r.records, Directory)| <= room && 6 * |r.records| <= room
    decreases |es|
  {
    hide Fill, Encode, AllOf, EncodeAll, StatusFromErrno, Hidden, RecordOf;
    NoBytes();
    if es == [] {
      FillEmpty(end, index, cursor, room, taken);
    } else {
      FillTurn(es, end, index, cursor, room, taken);
      var e := es[0];
      var up: u16 := (index + 1) % 0x1_0000;
      if Hidden(e) {
        FillFits(es[1..], end, index, cursor, room, taken);
      } else if index < cursor {
        FillFits(es[1..], end, up, cursor, room, taken);
      } else if 6 + |e.name| <= FS_RECORD_MAX && e.stat.StatOk? && 6 + |e.name| <= room {
        FillFits(es[1..], end, up, cursor, room - 6 - |e.name|, true);
        var rest := Fill(es[1..], end, up, cursor, room - 6 - |e.name|, true);
        if rest.Page? {
          EncodeCons(RecordOf(e), rest.records, Directory);
          RecordSize(e);
        }
      }
    }
  }

  /** The bytes of one answer to LIST once the directory is open. */
  function ListAnswer(opcode: byte, d: Listing, cursor: u16, capacity: nat): (b: seq<byte>)
    requires opcode < 0x80 && HEADER_SIZE <= capacity <= PACKET_MAX
  {
    match Fill(d.entries, d.end, 0, cursor, capacity - HEADER_SIZE, false)
    case Failed(status) => [opcode + RESPONSE_BIT, status]
    case Page(records, next) =>
      FillFits(d.entries, d.end, 0, cursor, capacity - HEADER_SIZE, false);
      PageBytes(opcode, next, records, Directory)
  }

  /** What LIST answers when closedir leaves `left` in errno: the status of a failed fstatat is taken only then. */
  function ListReply(opcode: byte, d: Listing, cursor: u16, capacity: nat, left: Errno): (b: seq<byte>)
    requires opcode < 0x80 && HEADER_SIZE <= capacity <= PACKET_MAX
  {
    if StatStop(d.entries, 0, cursor, capacity - HEADER_SIZE, false).Some? then
      [opcode + RESPONSE_BIT, StatusFromErrno(left)]
    else ListAnswer(opcode, d, cursor, capacity)
  }

  /** The answer tells the true reason exactly when no failed fstatat ends the loop, or the errno that closedir leaves
      has the status of the one that fstatat gave. */
  lemma ListReplyExactly(opcode: byte, d: Listing, cursor: u16, capacity: nat, left: Errno)
    requires opcode < 0x80 && HEADER_SIZE <= capacity <= PACKET_MAX
    ensures var stop := StatStop(d.entries, 0, cursor, capacity - HEADER_SIZE, false);
            ListReply(opcode, d, cursor, capacity, left) == ListAnswer(opcode, d, cursor, capacity)
            <==> stop.None? || StatusFromErrno(left) == StatusFromErrno(d.entries[stop.value].stat.errno)
  {
    var stop := StatStop(d.entries, 0, cursor, capacity - HEADER_SIZE, false);
    if stop.Some? {
      StatStopFails(d.entries, d.end, 0, cursor, capacity - HEADER_SIZE, false);
      hide StatStop, Fill, StatusFromErrno;
      var own := StatusFromErrno(d.entries[stop.value].stat.errno);
      assert [opcode + RESPONSE_BIT, StatusFromErrno(left)][1] == StatusFromErrno(left);
      assert [opcode + RESPONSE_BIT, own][1] == own;
    }
  }

  /** They can differ: an entry that may not be looked at, and a closedir that fails otherwise. */
  lemma WrongStatus()
    ensures var d := Listing([Dirent([0x61], StatFail(EACCES))], NoError);
            && ListAnswer(2, d, 0, PACKET_MAX) == [0x82, FS_ACCESS_DENIED]
            && ListReply(2, d, 0, PACKET_MAX, OtherError) == [0x82, FS_IO_ERROR]
  {
    var d := Listing([Dirent([0x61], StatFail(EACCES))], NoError);
    assert StatStop(d.entries, 0, 0, PACKET_MAX - HEADER_SIZE, false) == Some(0);
    StatStopFails(d.entries, NoError, 0, 0, PACKET_MAX - HEADER_SIZE, false);
  }

  // ----- traversal -----------------------------------------------------------------------------------------------

  /** The entries the protocol shows. */
  function Visible(es: seq<Dirent>): seq<Dirent>
  {
    if es == [] then [] else (if Hidden(es[0]) then [] else [es[0]]) + Visible(es[1..])
  }

  predicate Sane(e: Dirent) { |e.name| <= FS_NAME_MAX && e.stat.StatOk? }

  predicate AllSane(es: seq<Dirent>) { forall k | 0 <= k < |es| :: Sane(es[k]) }

  /** A directory that can be read to its end: short names, entries that can be looked at, no error at the end. */
  predicate Readable(d: Listing) { d.end == NoError && AllSane(Visible(d.entries)) }

  function RecordsOf(es: seq<Dirent>): (r: seq<Record>)
    requires AllSane(es)
    ensures |r| == |es|
  {
    if es == [] then [] else [RecordOf(es[0])] + RecordsOf(es[1..])
  }

  lemma {:induction false} RecordsAt(es: seq<Dirent>, k: nat)
    requires AllSane(es) && k < |es|
    ensures Sane(es[k]) && RecordsOf(es)[k] == RecordOf(es[k])
  {
    hide RecordOf;
    if k > 0 {
      RecordsAt(es[1..], k - 1);
    }
  }

  predicate NoneHidden(es: seq<Dirent>) { forall k | 0 <= k < |es| :: !Hidden(es[k]) }

  lemma VisibleTurn(es: seq<Dirent>)
    ensures es == [] ==> Visible(es) == []
    ensures es != [] ==> Visible(es) == if Hidden(es[0]) then Visible(es[1..]) else [es[0]] + Visible(es[1..])
  {
    hide Hidden;
    if es != [] {
      assert [] + Visible(es[1..]) == Visible(es[1..]);
    }
  }

  /** Hidden entries do not count: a page of the directory is a page of its visible entries. */
  lemma {:induction false} FillVisible(es: seq<Dirent>, end: Errno, index: u16, cursor: u16, room: nat, taken: bool)
    ensures Fill(es, end, index, cursor, room, taken) == Fill(Visible(es), end, index, cursor, room, taken)
    decreases |es|
  {
    hide Fill, StatusFromErrno, Encode, AllOf, RecordOf, Visible, Hidden;
    VisibleTurn(es);
    if es != [] {
      var e, rest, up := es[0], es[1..], (index + 1) % 0x1_0000;
      FillTurn(es, end, index, cursor, room, taken);
      if Hidden(e) {
        FillVisible(rest, end, index, cursor, room, taken);
      } else {
        var v := Visible(es);
        assert v[0] == e && v[1..] == Visible(rest);
        FillTurn(v, end, index, cursor, room, taken);
        if index < cursor {
          FillVisible(rest, end, up, cursor, room, taken);
        } else if 6 + |e.name| <= room {
          FillVisible(rest, end, up, cursor, room - 6 - |e.name|, true);
        }
      }
    }
  }

  lemma {:induction false} VisibleFacts(es: seq<Dirent>)
    ensures NoneHidden(Visible(es)) && (AllSane(es) ==> AllSane(Visible(es)))
  {
    if es != [] {
      VisibleFacts(es[1..]);
      assert AllSane(es) ==> Sane(es[0]) && AllSane(es[1..]);
    }
  }

  /** Entries in front of the cursor are counted and passed over. */
  lemma {:induction false} FillSkips(v: seq<Dirent>, index: u16, cursor: u16, room: nat, taken: bool)
    requires NoneHidden(v) && index <= cursor
    ensures Fill(v, NoError, index, cursor, room, taken) ==
            if |v| < cursor - index then ListPages.Page([], CURSOR_END)
            else Fill(v[cursor - index..], NoError, cursor, cursor, room, taken)
    decreases |v|
  {
    hide Hidden, RecordOf, AllOf;
    if index == cursor {
      assert v[0..] == v;
    } else if v != [] {
      FillSkips(v[1..], index + 1, cursor, room, taken);
      if |v| >= cursor - index {
        assert v[1..][cursor - index - 1..] == v[cursor - index..];
      }
    }
  }

  /** A cursor at or behind the number of visible entries gets an empty last page. */
  lemma CursorBehind(opcode: byte, d: Listing, cursor: u16, capacity: nat)
    requires opcode < 0x80 && 5 <= capacity <= 255 && d.end == NoError && |Visible(d.entries)| <= cursor
    ensures ListAnswer(opcode, d, cursor, capacity) == [0x80 + opcode, 0, 0xFF, 0xFF, 0]
  {
    hide Fill, Visible, Hidden;
    var v := Visible(d.entries);
    VisibleFacts(d.entries);
    FillVisible(d.entries, NoError, 0, cursor, capacity - HEADER_SIZE, false);
    FillSkips(v, 0, cursor, capacity - HEADER_SIZE, false);
    if |v| == cursor {
      assert v[cursor..] == [];
      FillNone(cursor, cursor, capacity - HEADER_SIZE, false);
    }
    NoBytes();
  }

  /** How many of the entries fit into `room` bytes, from the first on. */
  function Fitting(v: seq<Dirent>, room: nat): (n: nat)
    ensures n <= |v| && 6 * n <= room
  {
    if v == [] || 6 + |v[0].name| > room then 0 else 1 + Fitting(v[1..], room - 6 - |v[0].name|)
  }

  /** The bytes that the records of the entries take. */
  function Space(v: seq<Dirent>): nat { if v == [] then 0 else 6 + |v[0].name| + Space(v[1..]) }

  /** As many entries as fit, and not one more. */
  lemma {:induction false} FittingLargest(v: seq<Dirent>, room: nat)
    ensures var n := Fitting(v, room); Space(v[..n]) <= room && (n < |v| ==> Space(v[..n + 1]) > room)
    decreases |v|
  {
    if v == [] {
    } else if 6 + |v[0].name| > room {
      assert v[..1][1..] == [];
    } else {
      var less := room - 6 - |v[0].name|;
      var n := Fitting(v[1..], less);
      FittingLargest(v[1..], less);
      assert v[..n + 1][1..] == v[1..][..n];
      if n < |v[1..]| {
        assert v[..n + 2][1..] == v[1..][..n + 1];
      }
    }
  }

  /** What is never shown, by name. */
  lemma HiddenNames(e: Dirent)
    ensures Hidden(e) <==> e.name == Ascii(".") || e.name == Ascii("..")
  {
    assert Ascii(".") == [DOT] && Ascii("..") == [DOT, DOT];
  }

  lemma FillStep(v: seq<Dirent>, index: u16, cursor: u16, room: nat, taken: bool)
    requires v != [] && !Hidden(v[0]) && Sane(v[0]) && cursor <= index
    ensures Fill(v, NoError, index, cursor, room, taken) ==
            if 6 + |v[0].name| > room then
              (if taken then ListPages.Page([], index) else ListPages.Failed(FS_TOO_LARGE))
            else
              ListPages.Cons(
                RecordOf(v[0]), Fill(v[1..], NoError, (index + 1) % 0x1_0000, cursor, room - 6 - |v[0].name|, true))
  {
  }

  lemma FillNone(index: u16, cursor: u16, room: nat, taken: bool)
    ensures Fill([], NoError, index, cursor, room, taken) == ListPages.Page([], CURSOR_END)
  {
  }

  lemma SaneParts(v: seq<Dirent>, n: nat)
    requires NoneHidden(v) && AllSane(v) && n <= |v|
    ensures NoneHidden(v[..n]) && AllSane(v[..n]) && NoneHidden(v[n..]) && AllSane(v[n..])
    ensures v != [] ==> !Hidden(v[0]) && Sane(v[0])
  {
  }

  lemma RecordsCons(v: seq<Dirent>, n: nat)
    requires AllSane(v) && n < |v|
    ensures AllSane(v[..n + 1]) && AllSane(v[1..][..n])
    ensures RecordsOf(v[..n + 1]) == [RecordOf(v[0])] + RecordsOf(v[1..][..n])
  {
    assert v[..n + 1][1..] == v[1..][..n];
  }

  /** A page without wrap-around holds exactly the entries that fit, and names the first that does not. */
  lemma {:induction false} FillTakes(v: seq<Dirent>, index: u16, cursor: u16, room: nat, taken: bool)
    requires NoneHidden(v) && AllSane(v) && cursor <= index && index + |v| <= 0x1_0000
    requires taken || room >= FS_RECORD_MAX
    ensures AllSane(v[..Fitting(v, room)])
    ensures var r, n := Fill(v, NoError, index, cursor, room, taken), Fitting(v, room);
            && r == ListPages.Page(RecordsOf(v[..n]), if n == |v| then CURSOR_END else index + n)
            && (!taken && v != [] ==> n > 0)
    decreases |v|
  {
    hide Hidden, RecordOf, RecordsOf, AllSane, NoneHidden, Fill;
    SaneParts(v, Fitting(v, room));
    if v == [] {
      FillNone(index, cursor, room, taken);
      RecordsNone();
    } else {
      FillStep(v, index, cursor, room, taken);
      var e, rest := v[0], v[1..];
      if 6 + |e.name| <= room {
        var less := room - 6 - |e.name|;
        SaneParts(v, 1);
        if rest == [] {
          FillNone((index + 1) % 0x1_0000, cursor, less, true);
          RecordsNone();
          RecordsCons(v, 0);
        } else {
          FillTakes(rest, index + 1, cursor, less, true);
          RecordsCons(v, Fitting(rest, less));
        }
      } else {
        RecordsNone();
      }
    }
  }

  lemma RecordsNone()
    ensures AllSane([]) && RecordsOf([]) == []
  {
  }

  /** A page that runs over the 65536th entry passes over as many entries as its cursor says and goes on behind
      them, or ends. */
  lemma {:induction false} FillWraps(v: seq<Dirent>, index: u16, cursor: u16, room: nat)
    requires NoneHidden(v) && AllSane(v) && 0 < cursor <= index && index + |v| > 0x1_0000
    requires Fitting(v, room) >= 0x1_0000 - index
    ensures var r, m := Fill(v, NoError, index, cursor, room, true), 0x1_0000 - index;
            && r.Page? && |r.records| >= m && AllSane(v[..m]) && r.records[..m] == RecordsOf(v[..m])
            && (|r.records| == m ==> r.next == CURSOR_END || r.next == cursor)
            && (|r.records| > m ==> m + cursor < |v| && Sane(v[m + cursor]) && r.records[m] == RecordOf(v[m + cursor]))
    decreases |v|
  {
    hide Hidden, RecordOf, RecordsOf, AllSane, NoneHidden, Fill;
    SaneParts(v, 1);
    var e, rest, m := v[0], v[1..], 0x1_0000 - index;
    var less := room - 6 - |e.name|;
    FillStep(v, index, cursor, room, true);
    SaneParts(v, m);
    RecordsCons(v, m - 1);
    if m > 1 {
      FillWraps(rest, index + 1, cursor, less);
      WrapShift(v, index, cursor, room, less);
    } else {
      WrapPoint(v, cursor, room, less);
    }
  }

  lemma WrapShift(v: seq<Dirent>, index: u16, cursor: u16, room: nat, less: nat)
    requires AllSane(v) && 0 < cursor <= index < 0xFFFF && index + |v| > 0x1_0000 && |v| > 1 && Sane(v[0])
    requires AllSane(v[1..]) && AllSane(v[..0x1_0000 - index]) && AllSane(v[1..][..0xFFFF - index])
    requires RecordsOf(v[..0x1_0000 - index]) == [RecordOf(v[0])] + RecordsOf(v[1..][..0xFFFF - index])
    requires Fill(v, NoError, index, cursor, room, true)
             == ListPages.Cons(RecordOf(v[0]), Fill(v[1..], NoError, index + 1, cursor, less, true))
    requires var r, m := Fill(v[1..], NoError, index + 1, cursor, less, true), 0xFFFF - index;
             && r.Page? && |r.records| >= m && r.records[..m] == RecordsOf(v[1..][..m])
             && (|r.records| == m ==> r.next == CURSOR_END || r.next == cursor)
             && (|r.records| > m ==>
                   m + cursor < |v| - 1 && Sane(v[1..][m + cursor]) && r.records[m] == RecordOf(v[1..][m + cursor]))
    ensures var r, m := Fill(v, NoError, index, cursor, room, true), 0x1_0000 - index;
            && r.Page? && |r.records| >= m && r.records[..m] == RecordsOf(v[..m])
            && (|r.records| == m ==> r.next == CURSOR_END || r.next == cursor)
            && (|r.records| > m ==> m + cursor < |v| && Sane(v[m + cursor]) && r.records[m] == RecordOf(v[m + cursor]))
  {
    hide Hidden, RecordOf, RecordsOf, AllSane, NoneHidden, Fill;
    var q, r := Fill(v[1..], NoError, index + 1, cursor, less, true), Fill(v, NoError, index, cursor, room, true);
    var m := 0x1_0000 - index;
    assert r.records[..m] == [RecordOf(v[0])] + q.records[..m - 1];
    if |r.records| > m {
      assert r.records[m] == q.records[m - 1] && v[1..][m - 1 + cursor] == v[m + cursor];
    }
  }

  lemma WrapPoint(v: seq<Dirent>, cursor: u16, room: nat, less: nat)
    requires NoneHidden(v) && AllSane(v) && 0 < cursor && |v| > 1 && AllSane(v[..1])
    requires RecordsOf(v[..1]) == [RecordOf(v[0])] + RecordsOf(v[1..][..0])
    requires Fill(v, NoError, 0xFFFF, cursor, room, true)
             == ListPages.Cons(RecordOf(v[0]), Fill(v[1..], NoError, 0, cursor, less, true))
    ensures var r := Fill(v, NoError, 0xFFFF, cursor, room, true);
            && r.Page? && |r.records| >= 1 && r.records[..1] == RecordsOf(v[..1])
            && (|r.records| == 1 ==> r.next == CURSOR_END || r.next == cursor)
            && (|r.records| > 1 ==> 1 + cursor < |v| && Sane(v[1 + cursor]) && r.records[1] == RecordOf(v[1 + cursor]))
  {
    hide Hidden, RecordOf, RecordsOf, Fill;
    RecordsNone();
    assert v[1..][..0] == [];
    var rest := v[1..];
    SaneParts(v, 1);
    FillSkips(rest, 0, cursor, less, true);
    if |rest| >= cursor {
      var far := rest[cursor..];
      if far == [] {
        FillNone(cursor, cursor, less, true);
      } else {
        assert far[0] == v[1 + cursor];
        FillStep(far, cursor, cursor, less, true);
        FillPages(far[1..], (cursor + 1) % 0x1_0000, cursor, less - 6 - |far[0].name|);
      }
    }
  }

  /** Once a record is taken, sane entries never make the page fail. */
  lemma {:induction false} FillPages(v: seq<Dirent>, index: u16, cursor: u16, room: int)
    requires NoneHidden(v) && AllSane(v)
    ensures room >= 0 ==> Fill(v, NoError, index, cursor, room, true).Page?
    decreases |v|
  {
    if room >= 0 && v != [] {
      assert Sane(v[0]) && !Hidden(v[0]);
      FillPages(v[1..], (index + 1) % 0x1_0000, cursor, if index < cursor then room else room - 6 - |v[0].name|);
    }
  }

  /** A client that asks for the directory from cursor 0 on, after at most `pages` answers. */
  function ClientList(opcode: byte, d: Listing, pages: nat): (w: Walk)
    requires opcode < 0x80
  {
    if pages == 0 then Walk([], false, 0)
    else
      var w := ClientList(opcode, d, pages - 1);
      if w.finished then w else Turned(Directory, w, ListAnswer(opcode, d, w.cursor, PACKET_MAX))
  }

  /** The records of all shown entries, in directory order. */
  function Shown(d: Listing): (r: seq<Record>)
    requires Readable(d)
    ensures |r| == |Visible(d.entries)|
  {
    RecordsOf(Visible(d.entries))
  }

  const ROOM: nat := PACKET_MAX - HEADER_SIZE

  /** One page at full capacity, over the visible entries. */
  function PageAt(v: seq<Dirent>, cursor: u16): PageResult { Fill(v, NoError, 0, cursor, ROOM, false) }

  lemma WalkStart(opcode: byte, d: Listing)
    requires opcode < 0x80
    ensures ClientList(opcode, d, 0) == Walk([], false, 0)
  {
  }

  lemma WalkStays(opcode: byte, d: Listing, pages: nat)
    requires opcode < 0x80 && ClientList(opcode, d, pages).finished
    ensures ClientList(opcode, d, pages + 1) == ClientList(opcode, d, pages)
  {
  }

  /** What a client makes of one answer. */
  lemma TurnedPage(opcode: byte, d: Listing, w: Walk)
    requires opcode < 0x80
    ensures var r := Fill(d.entries, d.end, 0, w.cursor, ROOM, false);
            Turned(Directory, w, ListAnswer(opcode, d, w.cursor, PACKET_MAX))
            == if r.Page? then Walk(w.seen + r.records, r.next == CURSOR_END, r.next) else w
  {
    hide Fill, PageBytes, ReadAll;
    FillFits(d.entries, d.end, 0, w.cursor, ROOM, false);
    var r := Fill(d.entries, d.end, 0, w.cursor, ROOM, false);
    if r.Page? {
      PageReadBack(opcode, r.next, r.records, Directory);
    }
  }

  lemma WalkStep(opcode: byte, d: Listing, pages: nat)
    requires opcode < 0x80 && Readable(d) && !ClientList(opcode, d, pages).finished
    requires PageAt(Visible(d.entries), ClientList(opcode, d, pages).cursor).Page?
    ensures var w := ClientList(opcode, d, pages);
            var r := PageAt(Visible(d.entries), w.cursor);
            ClientList(opcode, d, pages + 1) == Walk(w.seen + r.records, r.next == CURSOR_END, r.next)
  {
    hide Fill, Turned, Visible, ListAnswer;
    var w := ClientList(opcode, d, pages);
    FillVisible(d.entries, NoError, 0, w.cursor, ROOM, false);
    TurnedPage(opcode, d, w);
  }

  lemma SliceRecord(v: seq<Dirent>, i: nat, n: nat, k: nat)
    requires AllSane(v) && i + n <= |v| && k < n && AllSane(v[i..][..n])
    ensures RecordsOf(v[i..][..n])[k] == RecordsOf(v)[i..i + n][k]
  {
    hide RecordOf, RecordsOf, AllSane;
    RecordsAt(v[i..][..n], k);
    RecordsAt(v, i + k);
  }

  lemma RecordsSlice(v: seq<Dirent>, i: nat, n: nat)
    requires AllSane(v) && i + n <= |v|
    ensures AllSane(v[i..]) && AllSane(v[i..][..n])
    ensures RecordsOf(v[i..][..n]) == RecordsOf(v)[i..i + n]
  {
    hide RecordOf, RecordsOf, Sane;
    assert AllSane(v[i..]) && AllSane(v[i..][..n]);
    var a, b := RecordsOf(v[i..][..n]), RecordsOf(v)[i..i + n];
    forall k | 0 <= k < n
      ensures a[k] == b[k]
    {
      SliceRecord(v, i, n, k);
    }
  }

  /** Up to 65536 entries a page is a slice of the records, whatever its cursor. */
  lemma SmallPage(v: seq<Dirent>, cursor: u16)
    requires NoneHidden(v) && AllSane(v) && cursor <= |v| <= 0x1_0000
    ensures var n := Fitting(v[cursor..], ROOM);
            && cursor + n <= |v| && (cursor < |v| ==> n > 0)
            && PageAt(v, cursor)
               == ListPages.Page(RecordsOf(v)[cursor..cursor + n], if cursor + n == |v| then CURSOR_END else cursor + n)
  {
    hide *;
    SmallFill(v, cursor);
    SameRecords(v, cursor, Fitting(v[cursor..], ROOM), PageAt(v, cursor));
  }

  lemma SameRecords(v: seq<Dirent>, i: nat, n: nat, r: PageResult)
    requires AllSane(v) && i + n <= |v| && AllSane(v[i..][..n]) && r.Page? && r.records == RecordsOf(v[i..][..n])
    ensures r == ListPages.Page(RecordsOf(v)[i..i + n], r.next)
  {
    hide *;
    RecordsSlice(v, i, n);
  }

  lemma SmallFill(v: seq<Dirent>, cursor: u16)
    requires NoneHidden(v) && AllSane(v) && cursor <= |v| <= 0x1_0000
    ensures var n := Fitting(v[cursor..], ROOM);
            && cursor + n <= |v| && (cursor < |v| ==> n > 0) && AllSane(v[cursor..][..n])
            && PageAt(v, cursor)
               == ListPages.Page(RecordsOf(v[cursor..][..n]), if cursor + n == |v| then CURSOR_END else cursor + n)
  {
    SaneParts(v, cursor);
    PageSkips(v, cursor);
    hide Fill, AllSane, NoneHidden, RecordsOf, Fitting, PageAt;
    FillTakes(v[cursor..], cursor, cursor, ROOM, false);
  }

  lemma PageSkips(v: seq<Dirent>, cursor: u16)
    requires NoneHidden(v) && cursor <= |v|
    ensures PageAt(v, cursor) == Fill(v[cursor..], NoError, cursor, cursor, ROOM, false)
  {
    hide Fill, NoneHidden;
    FillSkips(v, 0, cursor, ROOM, false);
  }

  /** Where the pages of the visible entries begin when nothing wraps around. */
  function PageStart(v: seq<Dirent>, k: nat): (r: nat)
    ensures r <= |v|
  {
    if k == 0 then 0
    else
      var before := PageStart(v, k - 1);
      before + Fitting(v[before..], ROOM)
  }

  /** Some page begins with the entry whose number is the end marker. */
  ghost predicate MarkerPage(v: seq<Dirent>) { exists k: nat :: PageStart(v, k) == 0xFFFF }

  ghost predicate LastPage(v: seq<Dirent>, p: nat) { PageStart(v, p + 1) == |v| && PageStart(v, p) < 0xFFFF }

  lemma {:induction false} PageStartsGrow(v: seq<Dirent>, j: nat, k: nat)
    requires j <= k
    ensures PageStart(v, j) <= PageStart(v, k)
  {
    hide Fitting;
    if j < k {
      PageStartsGrow(v, j, k - 1);
    }
  }

  /** With at most 65536 entries the client sees them page by page, and stops at the end or where a page begins with
      the entry whose number is the end marker. */
  ghost predicate PageByPage(w: Walk, v: seq<Dirent>, all: seq<Record>, pages: nat)
    requires |all| == |v|
  {
    if w.finished then
      || (w.seen == all && exists p: nat :: LastPage(v, p))
      || (|v| == 0x1_0000 && w.seen == all[..0xFFFF] && MarkerPage(v))
    else
      && w.cursor == PageStart(v, pages) < 0xFFFF && pages <= w.cursor <= |v| && w.seen == all[..w.cursor]
      && (pages > 0 ==> w.cursor < |v|)
  }

  lemma NextPage(v: seq<Dirent>, all: seq<Record>, w: Walk, pages: nat)
    requires |all| == |v| <= 0x1_0000 && PageByPage(w, v, all, pages) && !w.finished
    requires w.cursor < |v| ==> Fitting(v[w.cursor..], ROOM) > 0
    ensures var at := w.cursor + Fitting(v[w.cursor..], ROOM);
            var next := if at == |v| then CURSOR_END else at;
            at <= |v| && PageByPage(Walk(w.seen + all[w.cursor..at], next == CURSOR_END, next), v, all, pages + 1)
  {
    hide Fitting;
    var at := w.cursor + Fitting(v[w.cursor..], ROOM);
    assert all[..w.cursor] + all[w.cursor..at] == all[..at];
    assert PageStart(v, pages + 1) == at;
    if at == |v| {
      assert LastPage(v, pages);
      assert all[..at] == all;
    }
  }

  lemma {:induction false} SmallWalk(opcode: byte, d: Listing, pages: nat)
    requires opcode < 0x80 && Readable(d) && |Visible(d.entries)| <= 0x1_0000
    ensures PageByPage(ClientList(opcode, d, pages), Visible(d.entries), Shown(d), pages)
  {
    hide Fill, AllSane, NoneHidden, RecordsOf, Fitting, Visible, PageAt, ClientList;
    VisibleFacts(d.entries);
    if pages == 0 {
      WalkStart(opcode, d);
    } else {
      SmallWalk(opcode, d, pages - 1);
      var w, v := ClientList(opcode, d, pages - 1), Visible(d.entries);
      if w.finished {
        WalkStays(opcode, d, pages - 1);
      } else {
        SmallPage(v, w.cursor);
        WalkStep(opcode, d, pages - 1);
        NextPage(v, Shown(d), w, pages - 1);
      }
    }
  }

  ghost predicate Traversed(opcode: byte, d: Listing)
    requires opcode < 0x80 && Readable(d)
  {
    exists pages: nat :: ClientList(opcode, d, pages).finished && ClientList(opcode, d, pages).seen == Shown(d)
  }

  /** Following LIST cursors from 0 over a directory of at most 65535 entries ends, and shows every entry except "."
      and ".." exactly once, in directory order. */
  lemma ListTraversal(opcode: byte, d: Listing)
    requires opcode < 0x80 && Readable(d) && |Visible(d.entries)| <= 0xFFFF
    ensures Traversed(opcode, d)
  {
    hide ClientList, Shown, Visible, PageStart;
    var pages := |Visible(d.entries)| + 1;
    SmallWalk(opcode, d, pages);
    assert ClientList(opcode, d, pages).finished && ClientList(opcode, d, pages).seen == Shown(d);
  }

  predicate Distinct(v: seq<Dirent>) { forall i, j | 0 <= i < j < |v| :: v[i].name != v[j].name }

  /** What a page at `cursor` of more than 65536 records looks like. */
  ghost predicate Plausible(v: seq<Dirent>, cursor: u16, n: nat, r: PageResult)
    requires AllSane(v) && |v| > 0x1_0000 && cursor < 0xFFFF
  {
    var all := RecordsOf(v);
    && r.Page? && n > 0 && cursor + n <= |v|
    && if cursor + n < 0x1_0000 then r == ListPages.Page(all[cursor..cursor + n], cursor + n)
       else
         var m := 0x1_0000 - cursor;
         && |r.records| >= m && r.records[..m] == all[cursor..0x1_0000]
         && (|r.records| == m ==> r.next == CURSOR_END || (r.next == cursor && cursor > 0))
         && (|r.records| > m ==> exists j | 0 <= j < |v| && j != 0x1_0000 :: r.records[m] == all[j])
  }

  /** Beyond 65536 entries the first pages are still slices of the records, as long as they stay in range. */
  lemma BigPage(v: seq<Dirent>, cursor: u16)
    requires NoneHidden(v) && AllSane(v) && |v| > 0x1_0000 && cursor < 0xFFFF
    ensures Plausible(v, cursor, Fitting(v[cursor..], ROOM), PageAt(v, cursor))
  {
    hide Fill, AllSane, NoneHidden, RecordsOf, RecordOf, Sane;
    var t := v[cursor..];
    var n := Fitting(t, ROOM);
    SaneParts(v, cursor);
    PageSkips(v, cursor);
    if cursor + n < 0x1_0000 {
      BeforeWrap(t, cursor, cursor, ROOM, false);
      RecordsSlice(v, cursor, n);
    } else {
      var m := 0x1_0000 - cursor;
      assert cursor > 0;
      FirstTaken(t, cursor, ROOM);
      FillWraps(t, cursor, cursor, ROOM);
      RecordsSlice(v, cursor, m);
      var r := PageAt(v, cursor);
      if |r.records| > m {
        assert t[m + cursor] == v[0x1_0000 + cursor];
        RecordsAt(v, 0x1_0000 + cursor);
      }
    }
  }

  /** When the first entry fits, it does not matter whether a record was taken before. */
  lemma FirstTaken(v: seq<Dirent>, cursor: u16, room: nat)
    requires NoneHidden(v) && AllSane(v) && v != [] && Fitting(v, room) > 0
    ensures Fill(v, NoError, cursor, cursor, room, false) == Fill(v, NoError, cursor, cursor, room, true)
  {
    hide Fill, RecordOf, Sane, Hidden;
    SaneParts(v, 1);
    FillStep(v, cursor, cursor, room, false);
    FillStep(v, cursor, cursor, room, true);
  }

  /** A page that stops before the counter wraps around. */
  lemma {:induction false} BeforeWrap(v: seq<Dirent>, index: u16, cursor: u16, room: nat, taken: bool)
    requires NoneHidden(v) && AllSane(v) && cursor <= index && index + |v| > 0x1_0000
    requires (taken || room >= FS_RECORD_MAX) && index + Fitting(v, room) < 0x1_0000
    ensures AllSane(v[..Fitting(v, room)])
    ensures var n := Fitting(v, room);
            && Fill(v, NoError, index, cursor, room, taken) == ListPages.Page(RecordsOf(v[..n]), index + n)
            && (!taken ==> n > 0)
    decreases |v|
  {
    hide Hidden, RecordOf, RecordsOf, AllSane, NoneHidden, Fill;
    SaneParts(v, Fitting(v, room));
    FillStep(v, index, cursor, room, taken);
    var e, rest := v[0], v[1..];
    if 6 + |e.name| <= room {
      var less := room - 6 - |e.name|;
      SaneParts(v, 1);
      BeforeWrap(rest, index + 1, cursor, less, true);
      RecordsCons(v, Fitting(rest, less));
    } else {
      RecordsNone();
    }
  }

  /** The walk over more than 65536 entries goes wrong at the latest behind the 65536th: it has stopped too early, it
      has gone back, or it has shown another entry in place of the next one. */
  ghost predicate GoneWrong(w: Walk, all: seq<Record>)
    requires |all| > 0x1_0000
  {
    || (w.finished && |w.seen| < |all|)
    || (!w.finished && w.seen == all[..0x1_0000] && w.cursor > 0)
    || (|w.seen| > 0x1_0000 && w.seen[0x1_0000] != all[0x1_0000])
  }

  ghost predicate OnTrack(w: Walk, all: seq<Record>)
    requires |all| > 0x1_0000
  {
    !w.finished && w.seen == all[..w.cursor]
  }

  /** Entries with different names have different records. */
  lemma RecordsDiffer(v: seq<Dirent>, j: nat)
    requires AllSane(v) && Distinct(v) && |v| > 0x1_0000 && j < |v| && j != 0x1_0000
    ensures RecordsOf(v)[j] != RecordsOf(v)[0x1_0000]
  {
    hide RecordsOf;
    RecordsAt(v, j);
    RecordsAt(v, 0x1_0000);
    assert v[j].name != v[0x1_0000].name;
  }

  lemma BigStep(v: seq<Dirent>, w: Walk, n: nat, r: PageResult)
    requires AllSane(v) && Distinct(v) && |v| > 0x1_0000 && !w.finished && w.cursor < 0xFFFF
    requires OnTrack(w, RecordsOf(v)) || GoneWrong(w, RecordsOf(v))
    requires Plausible(v, w.cursor, n, r) && r.Page? && r.next <= CURSOR_END
    ensures var u := Walk(w.seen + r.records, r.next == CURSOR_END, r.next);
            OnTrack(u, RecordsOf(v)) || GoneWrong(u, RecordsOf(v))
  {
    hide RecordsOf, AllSane, Distinct;
    var all, c := RecordsOf(v), w.cursor;
    var seen := w.seen + r.records;
    if OnTrack(w, all) {
      if c + n < 0x1_0000 {
        assert seen == all[..c + n];
      } else {
        var m := 0x1_0000 - c;
        assert r.records == r.records[..m] + r.records[m..];
        assert all[..0x1_0000] == all[..c] + all[c..0x1_0000];
        if |r.records| == m {
          assert seen == all[..0x1_0000];
        } else {
          var j :| 0 <= j < |v| && j != 0x1_0000 && r.records[m] == all[j];
          RecordsDiffer(v, j);
          assert seen[0x1_0000] == r.records[m];
        }
      }
    } else if |w.seen| == 0x1_0000 {
      RecordsDiffer(v, c);
      assert r.records[0] == all[c] by {
        if c + n < 0x1_0000 {
          assert all[c..c + n][0] == all[c];
        } else {
          assert r.records[..0x1_0000 - c][0] == all[c..0x1_0000][0];
        }
      }
      assert seen[0x1_0000] == r.records[0];
    } else {
      assert seen[0x1_0000] == w.seen[0x1_0000];
    }
  }

  lemma {:induction false} BigWalk(opcode: byte, d: Listing, pages: nat)
    requires opcode < 0x80 && Readable(d) && |Visible(d.entries)| > 0x1_0000 && Distinct(Visible(d.entries))
    ensures var w, all := ClientList(opcode, d, pages), Shown(d);
            && (OnTrack(w, all) || GoneWrong(w, all))
            && (!w.finished ==> w.cursor < 0xFFFF)
  {
    hide Fill, AllSane, NoneHidden, RecordsOf, Fitting, Visible, PageAt, ReadAll, ListAnswer, OnTrack, GoneWrong,
         Distinct, Plausible;
    VisibleFacts(d.entries);
    if pages == 0 {
      BigStart(Shown(d));
    } else {
      BigWalk(opcode, d, pages - 1);
      var w, v := ClientList(opcode, d, pages - 1), Visible(d.entries);
      if !w.finished {
        BigPage(v, w.cursor);
        PlausiblePage(v, w.cursor);
        WalkStep(opcode, d, pages - 1);
        BigStep(v, w, Fitting(v[w.cursor..], ROOM), PageAt(v, w.cursor));
      }
    }
  }

  lemma PlausiblePage(v: seq<Dirent>, cursor: u16)
    requires AllSane(v) && |v| > 0x1_0000 && cursor < 0xFFFF
    requires Plausible(v, cursor, Fitting(v[cursor..], ROOM), PageAt(v, cursor))
    ensures PageAt(v, cursor).Page? && PageAt(v, cursor).next <= CURSOR_END
  {
  }

  lemma BigStart(all: seq<Record>)
    requires |all| > 0x1_0000
    ensures OnTrack(Walk([], false, 0), all)
  {
  }

  /** The exact condition for such a directory: at most 65536 entries, and no page that begins with entry 65535,
      whose number is the end marker. With at most 65535 entries no page can begin there. */
  lemma ReadableTraversal(opcode: byte, d: Listing)
    requires opcode < 0x80 && Readable(d) && Distinct(Visible(d.entries))
    ensures var v := Visible(d.entries);
            Traversed(opcode, d) <==> |v| <= 0x1_0000 && (|v| == 0x1_0000 ==> !MarkerPage(v))
  {
    hide ClientList, Shown, Visible, Distinct, PageStart;
    var v := Visible(d.entries);
    if |v| > 0x1_0000 {
      forall pages: nat
        ensures !(ClientList(opcode, d, pages).finished && ClientList(opcode, d, pages).seen == Shown(d))
      {
        BigWalk(opcode, d, pages);
      }
    } else {
      SmallWalk(opcode, d, |v| + 1);
      if |v| == 0x1_0000 && MarkerPage(v) {
        EndMarker(opcode, d);
      } else {
        assert ClientList(opcode, d, |v| + 1).finished && ClientList(opcode, d, |v| + 1).seen == Shown(d);
      }
    }
  }

  /** Where a page would begin with the end marker, no walk is complete. */
  lemma EndMarker(opcode: byte, d: Listing)
    requires opcode < 0x80 && Readable(d) && |Visible(d.entries)| == 0x1_0000
    requires MarkerPage(Visible(d.entries))
    ensures !Traversed(opcode, d)
  {
    hide ClientList, Shown, Visible, PageStart;
    var v := Visible(d.entries);
    var k: nat :| PageStart(v, k) == 0xFFFF;
    forall pages: nat
      ensures !(ClientList(opcode, d, pages).finished && ClientList(opcode, d, pages).seen == Shown(d))
    {
      SmallWalk(opcode, d, pages);
      if p: nat :| LastPage(v, p) {
        PageStartsGrow(v, if k <= p then k else p + 1, if k <= p then p else k);
      }
    }
  }

  /** A byte in two letters. */
  function Letters(x: byte): (r: seq<byte>)
    ensures |r| == 2
  {
    [0x61 + x / 16, 0x61 + x % 16]
  }

  /** A name of 243 bytes that begins with the number of its file. */
  function LongName(i: u16): (n: seq<byte>)
    ensures |n| == FS_NAME_MAX
  {
    Letters(i / 0x100) + Letters(i % 0x100) + seq(239, k => 0x61)
  }

  /** 65536 files with such names. */
  function FullDirectory(): (es: seq<Dirent>)
    ensures |es| == 0x1_0000 && forall i | 0 <= i < 0x1_0000 :: es[i] == Dirent(LongName(i), StatOk(1, 0))
  {
    seq(0x1_0000, i requires 0 <= i < 0x1_0000 => Dirent(LongName(i), StatOk(1, 0)))
  }

  lemma LettersDiffer(x: byte, y: byte)
    requires Letters(x) == Letters(y)
    ensures x == y
  {
    assert Letters(x)[0] == Letters(y)[0] && Letters(x)[1] == Letters(y)[1];
  }

  lemma LongNamesDiffer(i: u16, j: u16)
    requires i != j
    ensures LongName(i) != LongName(j)
  {
    hide Letters;
    var a, b := LongName(i), LongName(j);
    if a == b {
      assert a[..2] == Letters(i / 0x100) && b[..2] == Letters(j / 0x100);
      assert a[2..4] == Letters(i % 0x100) && b[2..4] == Letters(j % 0x100);
      LettersDiffer(i / 0x100, j / 0x100);
      LettersDiffer(i % 0x100, j % 0x100);
    }
  }

  lemma {:induction false} VisibleAll(es: seq<Dirent>)
    requires NoneHidden(es)
    ensures Visible(es) == es
  {
    hide Hidden;
    if es != [] {
      VisibleAll(es[1..]);
    }
  }

  /** A page holds one such name. */
  lemma {:induction false} OnePerPage(v: seq<Dirent>, k: nat)
    requires k <= |v| && forall i | 0 <= i < |v| :: |v[i].name| == FS_NAME_MAX
    ensures PageStart(v, k) == k
  {
    if k > 0 {
      OnePerPage(v, k - 1);
    }
  }

  lemma FullDirectoryFacts(es: seq<Dirent>)
    requires es == FullDirectory()
    ensures |es| == 0x1_0000 && AllSane(es) && NoneHidden(es) && Distinct(es)
    ensures forall i | 0 <= i < |es| :: |es[i].name| == FS_NAME_MAX
  {
    hide FullDirectory, LongName;
    forall i, j | 0 <= i < j < |es|
      ensures es[i].name != es[j].name
    {
      LongNamesDiffer(i, j);
    }
  }

  /** So the page that begins with number 65535 is never asked for: the last file of such a directory is not listed,
      although all its names differ. */
  lemma FullDirectoryCut(opcode: byte)
    requires opcode < 0x80
    ensures var d := Listing(FullDirectory(), NoError);
            Readable(d) && Distinct(Visible(d.entries)) && !Traversed(opcode, d)
  {
    hide Traversed, PageStart, FullDirectory, AllSane, NoneHidden, Distinct, Visible;
    var es := FullDirectory();
    FullDirectoryFacts(es);
    VisibleAll(es);
    OnePerPage(es, 0xFFFF);
    assert MarkerPage(es);
    EndMarker(opcode, Listing(es, NoError));
  }
}
