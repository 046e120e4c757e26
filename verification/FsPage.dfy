/** The loop of filesystem LIST over the directory stream, as it writes records into the response. */
module FsPage {
  import opened Bytes
  import opened Records
  import opened FsList
  import ListPages

  /** What is written so far: `records`, and what the loop will still add from entry `k` on. */
  ghost predicate Filling(
      d: Listing, cursor: u16, capacity: nat, k: nat, index: u16, out: nat, records: seq<Record>, b: seq<byte>)
  {
    && k <= |d.entries| && HEADER_SIZE <= out <= capacity <= |b|
    && AllOf(records, Directory) && 6 * |records| <= out - HEADER_SIZE
    && b[HEADER_SIZE..out] == EncodeAll(records, Directory)
    && ListPages.Prefix(records, Fill(d.entries[k..], d.end, index, cursor, capacity - out, records != []))
       == Fill(d.entries, d.end, 0, cursor, capacity - HEADER_SIZE, false)
    && Shifted(k, StatStop(d.entries[k..], index, cursor, capacity - out, records != []))
       == StatStop(d.entries, 0, cursor, capacity - HEADER_SIZE, false)
  }

  /** The loop body's test of one entry. */
  datatype Turn = Skip(index: u16) | Take | Stop | Refuse(status: byte) | NoStat(errno: Errno)

  function TurnOf(e: Dirent, index: u16, cursor: u16, room: nat, taken: bool): Turn
  {
    if Hidden(e) then Skip(index)
    else if index < cursor then Skip((index + 1) % 0x1_0000)
    else if |e.name| > 255 || 6 + |e.name| > FS_RECORD_MAX then Refuse(FS_TOO_LARGE)
    else if e.stat.StatFail? then NoStat(e.stat.errno)
    else if 6 + |e.name| > room then if taken then Stop else Refuse(FS_TOO_LARGE)
    else Take
  }

  lemma FillTurn(es: seq<Dirent>, end: Errno, index: u16, cursor: u16, room: nat, taken: bool)
    requires es != []
    ensures var r, stop := Fill(es, end, index, cursor, room, taken), StatStop(es, index, cursor, room, taken);
            match TurnOf(es[0], index, cursor, room, taken)
            case Skip(up) =>
              && r == Fill(es[1..], end, up, cursor, room, taken)
              && stop == Shifted(1, StatStop(es[1..], up, cursor, room, taken))
            case Refuse(status) => r == ListPages.Failed(status) && status != FS_OK && stop == None
            case NoStat(errno) =>
              r == ListPages.Failed(StatusFromErrno(errno)) && StatusFromErrno(errno) != FS_OK && stop == Some(0)
            case Stop => taken && r == ListPages.Page([], index) && stop == None
            case Take =>
              && |es[0].name| <= FS_NAME_MAX && es[0].stat.StatOk? && 6 + |es[0].name| <= room
              && stop == Shifted(1, StatStop(es[1..], (index + 1) % 0x1_0000, cursor, room - 6 - |es[0].name|, true))
              && r == ListPages.Cons(RecordOf(es[0]),
                                     Fill(es[1..], end, (index + 1) % 0x1_0000, cursor, room - 6 - |es[0].name|, true))
  {
    hide RecordOf, Hidden;
  }

  lemma FillingTurn(
      d: Listing, cursor: u16, capacity: nat, k: nat, index: u16, out: nat, records: seq<Record>, b: seq<byte>)
    requires Filling(d, cursor, capacity, k, index, out, records, b) && k < |d.entries|
    ensures var r := Fill(d.entries, d.end, 0, cursor, capacity - HEADER_SIZE, false);
            var stop := StatStop(d.entries, 0, cursor, capacity - HEADER_SIZE, false);
            match TurnOf(d.entries[k], index, cursor, capacity - out, records != [])
            case Skip(up) => Filling(d, cursor, capacity, k + 1, up, out, records, b)
            case Refuse(status) => r == ListPages.Failed(status) && status != FS_OK && stop == None
            case NoStat(errno) =>
              r == ListPages.Failed(StatusFromErrno(errno)) && StatusFromErrno(errno) != FS_OK && stop == Some(k)
            case Stop => records != [] && r == ListPages.Page(records, index) && stop == None
            case Take => |d.entries[k].name| <= FS_NAME_MAX && d.entries[k].stat.StatOk?
  {
    hide Fill, StatStop, TurnOf, AllOf, EncodeAll, RecordOf;
    var es := d.entries[k..];
    assert es[1..] == d.entries[k + 1..];
    FillTurn(es, d.end, index, cursor, capacity - out, records != []);
    assert records + [] == records;
  }

  /** Writing the record of a taken entry. */
  lemma FillingTakes(
      d: Listing, cursor: u16, capacity: nat, k: nat, index: u16, out: nat, records: seq<Record>, b: seq<byte>,
      c: seq<byte>)
    requires Filling(d, cursor, capacity, k, index, out, records, b) && k < |d.entries|
    requires TurnOf(d.entries[k], index, cursor, capacity - out, records != []).Take?
    requires |d.entries[k].name| <= FS_NAME_MAX && d.entries[k].stat.StatOk? && |c| == |b|
    requires c[HEADER_SIZE..out] == b[HEADER_SIZE..out] && At(c, out, Encode(RecordOf(d.entries[k])))
    ensures var e := d.entries[k];
            Filling(d, cursor, capacity, k + 1, (index + 1) % 0x1_0000, out + 6 + |e.name|, records + [RecordOf(e)], c)
  {
    hide Fill, StatStop, TurnOf, Encode;
    var e := d.entries[k];
    var es, r, next := d.entries[k..], RecordOf(e), out + 6 + |e.name|;
    assert es[1..] == d.entries[k + 1..];
    FillTurn(es, d.end, index, cursor, capacity - out, records != []);
    RecordSize(e);
    OneRecord(r);
    EncodeAllAppend(records, [r], Directory);
    assert c[HEADER_SIZE..next] == c[HEADER_SIZE..out] + c[out..next];
    ListPages.PrefixCons(records, r, Fill(es[1..], d.end, (index + 1) % 0x1_0000, cursor, capacity - next, true));
  }

  lemma OneRecord(r: Record)
    requires Countable(r) && r.File?
    ensures AllOf([r], Directory) && EncodeAll([r], Directory) == Encode(r)
  {
    assert [r][1..] == [];
    assert Encode(r) + [] == Encode(r);
  }

  lemma FillingStart(d: Listing, cursor: u16, capacity: nat, b: seq<byte>)
    requires HEADER_SIZE <= capacity <= |b|
    ensures Filling(d, cursor, capacity, 0, 0, HEADER_SIZE, [], b)
  {
    hide Fill, StatStop;
    assert d.entries[0..] == d.entries;
    var r := Fill(d.entries, d.end, 0, cursor, capacity - HEADER_SIZE, false);
    if r.Page? {
      assert [] + r.records == r.records;
    }
  }

  lemma FillingEnds(
      d: Listing, cursor: u16, capacity: nat, index: u16, out: nat, records: seq<Record>, b: seq<byte>)
    requires Filling(d, cursor, capacity, |d.entries|, index, out, records, b)
    ensures var r := Fill(d.entries, d.end, 0, cursor, capacity - HEADER_SIZE, false);
            && StatStop(d.entries, 0, cursor, capacity - HEADER_SIZE, false) == None
            && if d.end == NoError then r == ListPages.Page(records, CURSOR_END)
               else r == ListPages.Failed(StatusFromErrno(d.end)) && StatusFromErrno(d.end) != FS_OK
  {
    assert d.entries[|d.entries|..] == [];
    assert records + [] == records;
  }

  /** The loop up to closedir: the records are in the response behind room for the header, or a status says why
      there is no page. `stop` is the entry whose failed fstatat ended the loop. */
  method FillPage(d: Listing, cursor: u16, response: array<byte>)
    returns (status: byte, stop: Option<nat>, out: nat, next: u16, count: byte, ghost records: seq<Record>)
    requires HEADER_SIZE <= response.Length <= PACKET_MAX
    modifies response
    ensures var r := Fill(d.entries, d.end, 0, cursor, response.Length - HEADER_SIZE, false);
            if status != FS_OK then r == ListPages.Failed(status) else r == ListPages.Page(records, next)
    ensures status == FS_OK ==>
              && HEADER_SIZE <= out <= response.Length && |records| == count && AllOf(records, Directory)
              && response[HEADER_SIZE..out] == EncodeAll(records, Directory)
    ensures stop == StatStop(d.entries, 0, cursor, response.Length - HEADER_SIZE, false)
    ensures stop.Some? ==> status != FS_OK
  {
    hide Fill, StatStop, AllOf, EncodeAll, Encode, StatusFromErrno, Hidden;
    var capacity := response.Length;
    status, stop, out, next, count, records := FS_OK, None, HEADER_SIZE, CURSOR_END, 0, [];
    var index: u16, k := 0, 0;
    FillingStart(d, cursor, capacity, response[..]);
    while k < |d.entries|
      invariant k <= |d.entries| && count == |records| && status == FS_OK && stop == None && next == CURSOR_END
      invariant Filling(d, cursor, capacity, k, index, out, records, response[..])
    {
      var e := d.entries[k];
      FillingTurn(d, cursor, capacity, k, index, out, records, response[..]);
      if Hidden(e) {
        k := k + 1;
        continue;
      }
      if index < cursor {
        index, k := (index + 1) % 0x1_0000, k + 1;
        continue;
      }
      var recordSize := 6 + |e.name|;
      if |e.name| > 255 || recordSize > FS_RECORD_MAX {
        status := FS_TOO_LARGE;
        return;
      }
      if e.stat.StatFail? {
        status, stop := StatusFromErrno(e.stat.errno), Some(k);
        return;
      }
      if recordSize > capacity - out {
        if count == 0 {
          status := FS_TOO_LARGE;
        } else {
          next := index;
        }
        return;
      }
      ghost var before := response[..];
      PutRecord(e, response, out);
      FillingTakes(d, cursor, capacity, k, index, out, records, before, response[..]);
      records := records + [RecordOf(e)];
      out, count, index, k := out + recordSize, count + 1, (index + 1) % 0x1_0000, k + 1;
    }
    FillingEnds(d, cursor, capacity, index, out, records, response[..]);
    if d.end != NoError {
      status := StatusFromErrno(d.end);
    }
  }

  /** One record: type, counted name, size. */
  method PutRecord(e: Dirent, response: array<byte>, out: nat)
    requires |e.name| <= FS_NAME_MAX && e.stat.StatOk? && out + 6 + |e.name| <= response.Length
    modifies response
    ensures response[..out] == old(response[..out]) && At(response[..], out, Encode(RecordOf(e)))
  {
    RecordSize(e);
    hide Encode;
    CopyInto(response, out, Encode(RecordOf(e)));
  }
}
