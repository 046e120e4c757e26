/** The variable-length records of LIST, SEARCH and INFO pages: how the servers write them and how the client's
    page iterators read them back. */
module Records {
  import opened Bytes

  const HEADER_SIZE: nat := 5
  const RESPONSE_BIT: nat := 0x80
  const CURSOR_END: u16 := 0xFFFF

  /** How many bytes one answer carries behind its header: what is left, what the client asks for, where 0 asks for no
      limit, what the packet has room for, and at most what the one-byte count holds. */
  function PartSize(header: nat, left: nat, maximum: byte, capacity: nat): (n: nat)
    requires header <= capacity
    ensures n <= left && n <= 255 && header + n <= capacity && (maximum > 0 ==> n <= maximum)
    ensures capacity > header && left > 0 ==> n > 0
  {
    var room := capacity - header;
    Min(Min(if maximum > 0 && room > maximum then maximum else room, 255), left)
  }

  /** No larger part would keep within what is left, the limit, the room and the count. */
  lemma PartSizeLargest(header: nat, left: nat, maximum: byte, capacity: nat, n: nat)
    requires header <= capacity
    requires n <= left && n <= 255 && header + n <= capacity && (maximum > 0 ==> n <= maximum)
    ensures n <= PartSize(header, left, maximum, capacity)
  {
  }

  /** The three page layouts: Retro Vault entries, Retro Vault INFO values, directory entries. */
  datatype Layout = Entries | Values | Directory

  datatype Record =
    | Entry(id: seq<byte>, name: seq<byte>)
    | Tlv(kind: byte, value: seq<byte>)
    | File(kind: byte, name: seq<byte>, size: u32)

  function LayoutOf(r: Record): Layout
  {
    match r
    case Entry(_, _) => Entries
    case Tlv(_, _) => Values
    case File(_, _, _) => Directory
  }

  /** Every counted field fits its one-byte count. */
  predicate Countable(r: Record)
  {
    match r
    case Entry(id, name) => |id| <= 255 && |name| <= 255
    case Tlv(_, value) => |value| <= 255
    case File(_, name, _) => |name| <= 255
  }

  function Encode(r: Record): (b: seq<byte>)
    requires Countable(r)
    ensures |b| >= 2
  {
    match r
    case Entry(id, name) => ([|id|] + id) + ([|name|] + name)
    case Tlv(kind, value) => [kind, |value|] + value
    case File(kind, name, size) => ([kind, |name|] + name) + WriteU32(size)
  }

  predicate AllOf(rs: seq<Record>, layout: Layout)
  {
    forall k | 0 <= k < |rs| :: Countable(rs[k]) && LayoutOf(rs[k]) == layout
  }

  function EncodeAll(rs: seq<Record>, layout: Layout): seq<byte>
    requires AllOf(rs, layout)
  {
    if rs == [] then [] else Encode(rs[0]) + EncodeAll(rs[1..], layout)
  }

  datatype Read = Item(record: Record, next: nat) | ProtocolError

  /** One step of squid_client_retro_list_next, squid_client_retro_info_next or squid_client_fs_list_next with
      records left: the record that starts at `at`, and where the next one does. */
  function ReadRecord(layout: Layout, b: seq<byte>, at: nat, end: nat): (r: Read)
    requires at <= end <= |b|
  {
    match layout
    case Entries =>
      if at >= end then ProtocolError
      else
        var idSize: nat := b[at];
        if end - at < 2 + idSize then ProtocolError
        else
          var nameSize: nat := b[at + 1 + idSize];
          if end - at < 2 + idSize + nameSize then ProtocolError
          else
            var name := at + 2 + idSize;
            Item(Entry(b[at + 1..at + 1 + idSize], b[name..name + nameSize]), name + nameSize)
    case Values =>
      if end - at < 2 then ProtocolError
      else
        var size: nat := b[at + 1];
        if end - at < 2 + size then ProtocolError
        else Item(Tlv(b[at], b[at + 2..at + 2 + size]), at + 2 + size)
    case Directory =>
      if end - at < 6 then ProtocolError
      else
        var size: nat := b[at + 1];
        if end - at < 6 + size then ProtocolError
        else Item(File(b[at], b[at + 2..at + 2 + size], ReadU32(b, at + 2 + size)), at + 6 + size)
  }

  /** A record is read exactly when its encoding stands there and ends in time. */
  lemma ReadExactly(layout: Layout, b: seq<byte>, at: nat, end: nat, r: Record, next: nat)
    requires at <= end <= |b|
    ensures ReadRecord(layout, b, at, end) == Item(r, next)
            <==> && Countable(r) && LayoutOf(r) == layout
                 && next == at + |Encode(r)| && next <= end && At(b, at, Encode(r))
  {
    if ReadRecord(layout, b, at, end) == Item(r, next) {
      ReadGives(layout, b, at, end, r, next);
    }
    if Countable(r) && LayoutOf(r) == layout && next == at + |Encode(r)| && next <= end && At(b, at, Encode(r)) {
      EncodedIsRead(layout, b, at, end, r);
    }
  }

  /** A record takes at least two bytes. */
  lemma ReadAdvances(layout: Layout, b: seq<byte>, at: nat, end: nat)
    requires at <= end <= |b| && ReadRecord(layout, b, at, end).Item?
    ensures at < ReadRecord(layout, b, at, end).next <= end
  {
  }

  lemma ReadGives(layout: Layout, b: seq<byte>, at: nat, end: nat, r: Record, next: nat)
    requires at <= end <= |b| && ReadRecord(layout, b, at, end) == Item(r, next)
    ensures Countable(r) && LayoutOf(r) == layout && next == at + |Encode(r)| && next <= end && At(b, at, Encode(r))
  {
    match layout
    case Entries => EntryGives(b, at, end, r, next);
    case Values => assert b[at..next] == [r.kind, |r.value|] + r.value;
    case Directory => FileGives(b, at, end, r, next);
  }

  lemma EntryTaken(b: seq<byte>, at: nat, end: nat, r: Record, next: nat)
    requires at <= end <= |b| && ReadRecord(Entries, b, at, end) == Item(r, next)
    ensures r.Entry? && |r.id| <= 255 && |r.name| <= 255 && next == at + 2 + |r.id| + |r.name| && next <= end
    ensures var n := at + 1 + |r.id|;
            b[at] == |r.id| && b[at + 1..n] == r.id && b[n] == |r.name| && b[n + 1..next] == r.name
  {
  }

  lemma CountedText(b: seq<byte>, at: nat, text: seq<byte>)
    requires |text| <= 255 && at + 1 + |text| <= |b| && b[at] == |text| && b[at + 1..at + 1 + |text|] == text
    ensures At(b, at, [|text|] + text)
  {
  }

  lemma EntryGives(b: seq<byte>, at: nat, end: nat, r: Record, next: nat)
    requires at <= end <= |b| && ReadRecord(Entries, b, at, end) == Item(r, next)
    ensures Countable(r) && r.Entry? && next == at + |Encode(r)| && next <= end && At(b, at, Encode(r))
  {
    hide At;
    EntryTaken(b, at, end, r, next);
    var n := at + 1 + |r.id|;
    CountedText(b, at, r.id);
    CountedText(b, n, r.name);
    AtAppend(b, at, [|r.id|] + r.id, [|r.name|] + r.name);
  }

  lemma FileTaken(b: seq<byte>, at: nat, end: nat, r: Record, next: nat)
    requires at <= end <= |b| && ReadRecord(Directory, b, at, end) == Item(r, next)
    ensures r.File? && |r.name| <= 255 && next == at + 6 + |r.name| && next <= end
    ensures At(b, at, [r.kind, |r.name|] + r.name) && r.size == ReadU32(b, at + 2 + |r.name|)
  {
    hide ReadU32;
    var n := at + 2 + |r.name|;
    assert b[at..n] == [b[at], b[at + 1]] + b[at + 2..n];
  }

  lemma U32At(b: seq<byte>, at: nat)
    requires at + 4 <= |b|
    ensures At(b, at, WriteU32(ReadU32(b, at)))
  {
    hide ReadU32, WriteU32;
    U32Rewrite(b, at);
  }

  lemma FileGives(b: seq<byte>, at: nat, end: nat, r: Record, next: nat)
    requires at <= end <= |b| && ReadRecord(Directory, b, at, end) == Item(r, next)
    ensures Countable(r) && r.File? && next == at + |Encode(r)| && next <= end && At(b, at, Encode(r))
  {
    hide At, ReadU32, WriteU32;
    FileTaken(b, at, end, r, next);
    U32At(b, at + 2 + |r.name|);
    AtAppend(b, at, [r.kind, |r.name|] + r.name, WriteU32(r.size));
  }

  lemma HeadAndText(b: seq<byte>, at: nat, head: seq<byte>, text: seq<byte>)
    requires At(b, at, head + text)
    ensures forall k | 0 <= k < |head| :: b[at + k] == head[k]
    ensures b[at + |head|..at + |head| + |text|] == text
  {
    AtAppend(b, at, head, text);
    var h := b[at..at + |head|];
    assert forall k | 0 <= k < |head| :: b[at + k] == h[k];
  }

  lemma EncodedIsRead(layout: Layout, b: seq<byte>, at: nat, end: nat, r: Record)
    requires at <= end <= |b| && Countable(r) && LayoutOf(r) == layout
    requires At(b, at, Encode(r)) && at + |Encode(r)| <= end
    ensures ReadRecord(layout, b, at, end) == Item(r, at + |Encode(r)|)
  {
    match r
    case Entry(id, name) => EntryIsRead(b, at, end, id, name);
    case Tlv(kind, value) =>
      HeadAndText(b, at, [kind, |value|], value);
      assert b[at + 0] == kind && b[at + 1] == |value|;
    case File(kind, name, size) => FileIsRead(b, at, end, kind, name, size);
  }

  lemma EntryIsRead(b: seq<byte>, at: nat, end: nat, id: seq<byte>, name: seq<byte>)
    requires at <= end <= |b| && Countable(Entry(id, name))
    requires At(b, at, Encode(Entry(id, name))) && at + 2 + |id| + |name| <= end
    ensures ReadRecord(Entries, b, at, end) == Item(Entry(id, name), at + 2 + |id| + |name|)
  {
    hide At, ReadRecord;
    EntryParts(b, at, id, name);
    EntryFromParts(b, at, end, id, name);
  }

  /** Where the parts of an entry stand. */
  lemma EntryParts(b: seq<byte>, at: nat, id: seq<byte>, name: seq<byte>)
    requires |id| <= 255 && |name| <= 255 && At(b, at, ([|id|] + id) + ([|name|] + name))
    ensures var n := at + 1 + |id|;
            && n + 1 + |name| <= |b| && b[at] == |id| && b[at + 1..n] == id
            && b[n] == |name| && b[n + 1..n + 1 + |name|] == name
  {
    hide At;
    AtAppend(b, at, [|id|] + id, [|name|] + name);
    TextAt(b, at, id);
    TextAt(b, at + 1 + |id|, name);
  }

  lemma TextAt(b: seq<byte>, at: nat, text: seq<byte>)
    requires |text| <= 255 && At(b, at, [|text|] + text)
    ensures at + 1 + |text| <= |b| && b[at] == |text| && b[at + 1..at + 1 + |text|] == text
  {
    HeadAndText(b, at, [|text|], text);
    hide *;
    assert b[at + 0] == [|text|][0];
  }

  lemma EntryFromParts(b: seq<byte>, at: nat, end: nat, id: seq<byte>, name: seq<byte>)
    requires at <= end <= |b| && |id| <= 255 && |name| <= 255 && at + 2 + |id| + |name| <= end
    requires var n := at + 1 + |id|;
             b[at] == |id| && b[at + 1..n] == id && b[n] == |name| && b[n + 1..n + 1 + |name|] == name
    ensures ReadRecord(Entries, b, at, end) == Item(Entry(id, name), at + 2 + |id| + |name|)
  {
  }

  lemma FileIsRead(b: seq<byte>, at: nat, end: nat, kind: byte, name: seq<byte>, size: u32)
    requires at <= end <= |b| && |name| <= 255
    requires At(b, at, Encode(File(kind, name, size))) && at + 6 + |name| <= end
    ensures ReadRecord(Directory, b, at, end) == Item(File(kind, name, size), at + 6 + |name|)
  {
    hide At, ReadU32, WriteU32;
    AtAppend(b, at, [kind, |name|] + name, WriteU32(size));
    HeadAndText(b, at, [kind, |name|], name);
    assert b[at + 0] == [kind, |name|][0] && b[at + 1] == [kind, |name|][1];
    U32RoundTrip(b, at + 2 + |name|, size);
  }

  /** The records an iterator returns until it reports the end, or None if it reports a protocol error. */
  function ReadAll(layout: Layout, b: seq<byte>, at: nat, end: nat, left: nat): (r: Option<seq<Record>>)
    requires at <= end <= |b|
    decreases left
  {
    if left == 0 then (if at == end then Some([]) else None)
    else
      match ReadRecord(layout, b, at, end)
      case ProtocolError => None
      case Item(record, next) =>
        if next > end then None
        else
          var rest := ReadAll(layout, b, next, end, left - 1);
          if rest.None? then None else Some([record] + rest.value)
  }

  /** What a client that turns pages has seen so far, whether a page told it to stop, and where it goes on. */
  datatype Walk = Walk(seen: seq<Record>, finished: bool, cursor: u16)

  /** The client iterates an answer and takes over the cursor in it. An error or a page that does not parse shows
      nothing and does not finish. */
  function Turned(layout: Layout, w: Walk, b: seq<byte>): Walk
  {
    if |b| < HEADER_SIZE || b[1] != 0 || ReadAll(layout, b, HEADER_SIZE, |b|, b[4]).None? then w
    else
      var next := ReadU16(b, 2);
      Walk(w.seen + ReadAll(layout, b, HEADER_SIZE, |b|, b[4]).value, next == CURSOR_END, next)
  }

  /** Printer and iterator undo each other: over any bytes, the iterator returns `rs` and then the end exactly when
      the bytes are the encoding of `rs` and the announced count is their number. */
  lemma {:induction false} ReadAllExactly(layout: Layout, b: seq<byte>, at: nat, end: nat, left: nat, rs: seq<Record>)
    requires at <= end <= |b|
    ensures ReadAll(layout, b, at, end, left) == Some(rs)
            <==> |rs| == left && AllOf(rs, layout) && b[at..end] == EncodeAll(rs, layout)
    decreases left
  {
    if left == 0 {
    } else if rs != [] {
      if ReadAll(layout, b, at, end, left) == Some(rs) {
        ReadAllGives(layout, b, at, end, left, rs);
      }
      if |rs| == left && AllOf(rs, layout) && b[at..end] == EncodeAll(rs, layout) {
        EncodedAllIsRead(layout, b, at, end, left, rs);
      }
    }
  }

  lemma {:induction false} ReadAllGives(layout: Layout, b: seq<byte>, at: nat, end: nat, left: nat, rs: seq<Record>)
    requires at <= end <= |b| && ReadAll(layout, b, at, end, left) == Some(rs)
    ensures |rs| == left && AllOf(rs, layout) && b[at..end] == EncodeAll(rs, layout)
    decreases left
  {
    hide ReadRecord, Encode, Countable;
    if left > 0 {
      var r, next := ReadRecord(layout, b, at, end).record, ReadRecord(layout, b, at, end).next;
      var rest := ReadAll(layout, b, next, end, left - 1).value;
      ReadGives(layout, b, at, end, r, next);
      ReadAllGives(layout, b, next, end, left - 1, rest);
      EncodeCons(r, rest, layout);
      assert b[at..end] == b[at..next] + b[next..end];
    }
  }

  lemma {:induction false} EncodedAllIsRead(layout: Layout, b: seq<byte>, at: nat, end: nat, left: nat, rs: seq<Record>)
    requires at <= end <= |b| && |rs| == left && AllOf(rs, layout) && b[at..end] == EncodeAll(rs, layout)
    ensures ReadAll(layout, b, at, end, left) == Some(rs)
    decreases left
  {
    hide ReadRecord, Encode, Countable;
    if left > 0 {
      var r, rest := rs[0], rs[1..];
      assert rs == [r] + rest;
      var n := |Encode(r)|;
      assert b[at..at + n] == b[at..end][..n] && b[at + n..end] == b[at..end][n..];
      EncodedIsRead(layout, b, at, end, r);
      EncodedAllIsRead(layout, b, at + n, end, left - 1, rest);
    }
  }

  lemma EncodeCons(r: Record, rest: seq<Record>, layout: Layout)
    requires Countable(r) && LayoutOf(r) == layout && AllOf(rest, layout)
    ensures AllOf([r] + rest, layout) && EncodeAll([r] + rest, layout) == Encode(r) + EncodeAll(rest, layout)
  {
    hide Encode, Countable;
    assert ([r] + rest)[1..] == rest;
  }

  lemma {:induction false} EncodeAllAppend(a: seq<Record>, c: seq<Record>, layout: Layout)
    requires AllOf(a, layout) && AllOf(c, layout)
    ensures AllOf(a + c, layout) && EncodeAll(a + c, layout) == EncodeAll(a, layout) + EncodeAll(c, layout)
  {
    hide Encode, Countable;
    if a == [] {
      assert a + c == c;
    } else {
      EncodeAllAppend(a[1..], c, layout);
      EncodeCons(a[0], a[1..] + c, layout);
      assert a + c == [a[0]] + (a[1..] + c);
    }
  }

  /** A page: response opcode, status OK, next cursor, record count, records. */
  function PageBytes(opcode: byte, next: u16, rs: seq<Record>, layout: Layout): seq<byte>
    requires opcode < 0x80 && AllOf(rs, layout) && |rs| <= 255
  {
    ([opcode + RESPONSE_BIT, 0] + WriteU16(next) + [|rs|]) + EncodeAll(rs, layout)
  }

  /** What a client call leaves in its page object, and what iterating it returns, are what the server put in. */
  lemma PageReadBack(opcode: byte, next: u16, rs: seq<Record>, layout: Layout)
    requires opcode < 0x80 && AllOf(rs, layout) && |rs| <= 255
    ensures var b := PageBytes(opcode, next, rs, layout);
            && |b| >= HEADER_SIZE && b[0] == opcode + RESPONSE_BIT && b[1] == 0
            && ReadU16(b, 2) == next && b[4] == |rs|
            && ReadAll(layout, b, HEADER_SIZE, |b|, b[4]) == Some(rs)
  {
    var b := PageBytes(opcode, next, rs, layout);
    assert b[HEADER_SIZE..|b|] == EncodeAll(rs, layout);
    assert b[2] == WriteU16(next)[0] && b[3] == WriteU16(next)[1];
    ReadAllExactly(layout, b, HEADER_SIZE, |b|, |rs|, rs);
  }

  /** The two bytes of an error answer. */
  method WriteError(opcode: byte, status: byte, response: array<byte>) returns (size: int)
    requires opcode < 0x80 && response.Length >= 2
    modifies response
    ensures size == 2 && response[..2] == [opcode + RESPONSE_BIT, status]
  {
    response[0], response[1] := opcode + RESPONSE_BIT, status;
    size := 2;
  }

  /** The header of a page, in front of records already written. */
  method WriteHeader(opcode: byte, next: u16, count: byte, response: array<byte>)
    requires opcode < 0x80 && response.Length >= HEADER_SIZE
    modifies response
    ensures response[..HEADER_SIZE] == [opcode + RESPONSE_BIT, 0] + WriteU16(next) + [count]
    ensures response[HEADER_SIZE..] == old(response[HEADER_SIZE..])
  {
    response[0], response[1] := opcode + RESPONSE_BIT, 0;
    response[2], response[3] := next % 0x100, next / 0x100;
    response[4] := count;
  }

  /** The header in front of the records: the packet is the page. */
  method FinishPage(
      opcode: byte, next: u16, count: byte, ghost records: seq<Record>, ghost layout: Layout, response: array<byte>,
      out: nat)
    requires opcode < 0x80 && HEADER_SIZE <= out <= response.Length && count == |records| && AllOf(records, layout)
    requires response[HEADER_SIZE..out] == EncodeAll(records, layout)
    modifies response
    ensures response[..out] == PageBytes(opcode, next, records, layout)
  {
    hide EncodeAll, WriteU16, AllOf;
    WriteHeader(opcode, next, count, response);
    assert response[HEADER_SIZE..out] == EncodeAll(records, layout);
    assert response[..out] == response[..HEADER_SIZE] + response[HEADER_SIZE..out];
  }

  /** A page as a client call leaves it: a window on the client's packet. */
  class PageIterator {
    const layout: Layout
    const packet: array<byte>
    var nextCursor: u16
    var left: byte
    var next: nat
    var end: nat

    ghost predicate Valid()
      reads this, packet
    {
      next <= end <= packet.Length
    }

    ghost function Remaining(): Option<seq<Record>>
      reads this, packet
      requires Valid()
    {
      ReadAll(layout, packet[..], next, end, left)
    }

    /** Fills the page from a response of `size` bytes. */
    constructor (layout: Layout, packet: array<byte>, size: nat)
      requires HEADER_SIZE <= size <= packet.Length
      ensures Valid() && this.layout == layout && this.packet == packet && end == size && next == HEADER_SIZE
      ensures nextCursor == ReadU16(packet[..], 2)
      ensures Remaining() == ReadAll(layout, packet[..], HEADER_SIZE, size, packet[4])
    {
      this.layout, this.packet := layout, packet;
      nextCursor := packet[2] as int + 0x100 * (packet[3] as int);
      left, next, end := packet[4], HEADER_SIZE, size;
    }

    /** Returns 1 and a record, 0 at the end, or a protocol error; reads inside the page only. */
    method Next() returns (code: int, record: Record)
      requires Valid()
      modifies this`next, this`left
      ensures Valid() && nextCursor == old(nextCursor) && end == old(end)
      ensures code == 0 ==> old(Remaining()) == Some([]) && next == end
      ensures code == 1 ==>
                && left == old(left) - 1 && old(next) < next
                && if Remaining().None? then old(Remaining()).None?
                   else old(Remaining()) == Some([record] + Remaining().value)
      ensures code < 0 ==> code == -4 && old(Remaining()).None? && next == old(next) && left == old(left)
      ensures code <= 1
    {
      hide ReadRecord;
      record := Tlv(0, []);
      if left == 0 {
        code := if next == end then 0 else -4;
        return;
      }
      var r := ReadRecord(layout, packet[..], next, end);
      if r.ProtocolError? {
        return -4, record;
      }
      ReadAdvances(layout, packet[..], next, end);
      next, left := r.next, left - 1;
      return 1, r.record;
    }
  }
}
