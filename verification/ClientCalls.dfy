/** The client calls: building a request in the packet, exchanging it, and checking the reply. */
module ClientCalls {
  import opened Bytes
  import opened Paths
  import opened Framing
  import opened Records
  import opened FsPath
  import opened Filesystem
  import opened Exchange
  import opened Client
  import opened Requests
  import RetroContext

  // ----- arguments ------------------------------------------------------------------------------------------------

  /** A C string: bytes without a terminator among them. The null pointer counts as the empty string. */
  predicate IsCString(t: seq<byte>) { Free(t, 0) }

  /** squid_client_text_size over the string's memory, terminator included: it stops at the terminator, or one byte
      past the maximum. */
  method TextSize(text: seq<byte>, maximum: byte) returns (size: int)
    requires IsCString(text)
    ensures size == if |text| > maximum then ERROR_ARGUMENT else |text|
  {
    var memory := text + [0];
    assert forall k | 0 <= k < |text| :: memory[k] == text[k] != 0;
    var n := 0;
    while memory[n] != 0
      invariant 0 <= n <= |text| && n <= maximum
      decreases |text| - n
    {
      n := n + 1;
      if n > maximum {
        return ERROR_ARGUMENT;
      }
    }
    return n;
  }

  method FilesystemPathSize(path: seq<byte>, allowEmpty: bool) returns (size: int)
    requires IsCString(path)
    ensures size == if |path| > FS_PATH_MAX || (path == [] && !allowEmpty) then ERROR_ARGUMENT else |path|
  {
    size := TextSize(path, FS_PATH_MAX);
    if size == 0 && !allowEmpty {
      size := ERROR_ARGUMENT;
    }
  }

  // ----- requests -------------------------------------------------------------------------------------------------

  /** The packet holds the request behind room for the length byte, unless it is too long. */
  ghost predicate Built(client: SquidClient, size: int, payload: seq<byte>)
    requires client.packet.Length == client.capacity + 1
    reads client.packet
  {
    if |payload| > client.capacity then size == ERROR_ARGUMENT
    else size == |payload| && client.packet[1..1 + size] == payload
  }

  /** A head and one counted string. */
  method PutOne(client: SquidClient, head: seq<byte>, text: Text)
    requires client.packet.Length == client.capacity + 1 && |head| + 1 + |text| <= client.capacity
    modifies client.packet
    ensures client.packet[1..2 + |head| + |text|] == head + Counted(text)
    ensures client.packet[2 + |head| + |text|..] == old(client.packet[2 + |head| + |text|..])
  {
    var a := client.packet;
    CopyInto(a, 1, head);
    ghost var mid := a[..];
    assert mid[1..1 + |head|] == head;
    PutCounted(a, 1 + |head|, text);
    assert a[..] == mid[..1 + |head|] + Counted(text) + mid[2 + |head| + |text|..];
    assert a[1..2 + |head| + |text|] == a[..][1..2 + |head| + |text|];
  }

  /** A head and two counted strings. */
  method PutTwo(client: SquidClient, head: seq<byte>, text: Text, more: Text)
    requires client.packet.Length == client.capacity + 1 && |head| + 2 + |text| + |more| <= client.capacity
    modifies client.packet
    ensures client.packet[1..3 + |head| + |text| + |more|] == head + Counted(text) + Counted(more)
    ensures client.packet[3 + |head| + |text| + |more|..] == old(client.packet[3 + |head| + |text| + |more|..])
  {
    PutOne(client, head, text);
    var a, at := client.packet, 2 + |head| + |text|;
    ghost var mid := a[..];
    assert mid[1..at] == head + Counted(text);
    PutCounted(a, at, more);
    assert a[..] == mid[..at] + Counted(more) + mid[at + 1 + |more|..];
    assert a[1..at + 1 + |more|] == a[..][1..at] + a[..][at..at + 1 + |more|];
  }

  /** squid_client_retro_list up to the exchange. */
  method BuildRetroList(client: SquidClient, platform: seq<byte>, model: seq<byte>, cursor: u16) returns (size: int)
    requires client.packet.Length == client.capacity + 1 && IsCString(platform) && IsCString(model)
    modifies client.packet
    ensures if |platform| > 255 || |model| > 255 then size == ERROR_ARGUMENT
            else Built(client, size, ListPayload(ListFields(cursor, platform, [], model)))
  {
    hide WriteU16;
    var platformSize := TextSize(platform, 255);
    var modelSize := TextSize(model, 255);
    if platformSize < 0 || modelSize < 0 {
      return ERROR_ARGUMENT;
    }
    size := 4 + platformSize;
    if modelSize > 0 {
      size := size + 1 + modelSize;
    }
    if size > client.capacity {
      return ERROR_ARGUMENT;
    }
    var head := [RETRO_LIST] + WriteU16(cursor);
    if modelSize > 0 {
      PutTwo(client, head, platform, model);
    } else {
      PutOne(client, head, platform);
      assert head + Counted(platform) + [] == head + Counted(platform);
    }
  }

  /** squid_client_retro_search up to the exchange. */
  method BuildRetroSearch(
      client: SquidClient, platform: seq<byte>, model: seq<byte>, query: seq<byte>, cursor: u16) returns (size: int)
    requires client.packet.Length == client.capacity + 1
    requires IsCString(platform) && IsCString(model) && IsCString(query)
    modifies client.packet
    ensures if |platform| > 255 || |model| > 255 || |query| > 255 then size == ERROR_ARGUMENT
            else Built(client, size, SearchPayload(ListFields(cursor, platform, query, model)))
  {
    hide WriteU16;
    var platformSize := TextSize(platform, 255);
    var modelSize := TextSize(model, 255);
    var querySize := TextSize(query, 255);
    if platformSize < 0 || modelSize < 0 || querySize < 0 {
      return ERROR_ARGUMENT;
    }
    size := 5 + platformSize + querySize;
    if modelSize > 0 {
      size := size + 1 + modelSize;
    }
    if size > client.capacity {
      return ERROR_ARGUMENT;
    }
    var head := [RETRO_SEARCH] + WriteU16(cursor);
    var position := 6 + platformSize + querySize;
    ghost var first := head + Counted(platform) + Counted(query);
    assert first + Trailing(model) == head + Counted(platform) + (Counted(query) + Trailing(model));
    PutTwo(client, head, platform, query);
    if modelSize > 0 {
      ghost var mid := client.packet[..];
      assert mid[1..position] == first;
      PutCounted(client.packet, position, model);
      ghost var now := client.packet[..];
      assert now == mid[..position] + Counted(model) + mid[position + 1 + modelSize..];
      assert now[1..1 + size] == mid[1..position] + Counted(model);
    } else {
      assert first + [] == first;
    }
  }

  /** squid_client_retro_info up to the exchange. */
  method BuildRetroInfo(client: SquidClient, packageId: seq<byte>, cursor: u16) returns (size: int)
    requires client.packet.Length == client.capacity + 1 && IsCString(packageId)
    modifies client.packet
    ensures if packageId == [] || |packageId| > 255 then size == ERROR_ARGUMENT
            else Built(client, size, InfoPayload(cursor, packageId))
  {
    hide WriteU16;
    var idSize := TextSize(packageId, 255);
    if idSize <= 0 || 4 + idSize > client.capacity {
      return ERROR_ARGUMENT;
    }
    size := 4 + idSize;
    PutOne(client, [RETRO_INFO] + WriteU16(cursor), packageId);
    assert InfoPayload(cursor, packageId) == [RETRO_INFO] + WriteU16(cursor) + Counted(packageId);
  }

  /** squid_client_retro_download up to the exchange. */
  method BuildRetroDownload(
      client: SquidClient, packageId: seq<byte>, downloadId: seq<byte>, offset: u32, maximum: byte)
    returns (size: int)
    requires client.packet.Length == client.capacity + 1 && IsCString(packageId) && IsCString(downloadId)
    modifies client.packet
    ensures if packageId == [] || |packageId| > 255 || downloadId == [] || |downloadId| > 255 then
              size == ERROR_ARGUMENT
            else Built(client, size, DownloadPayload(DownloadFields(offset, maximum, packageId, downloadId)))
  {
    hide WriteU32;
    var packageSize := TextSize(packageId, 255);
    var downloadSize := TextSize(downloadId, 255);
    if packageSize <= 0 || downloadSize <= 0 || 8 + packageSize + downloadSize > client.capacity {
      return ERROR_ARGUMENT;
    }
    size := 8 + packageSize + downloadSize;
    PutTwo(client, [RETRO_DOWNLOAD] + WriteU32(offset) + [maximum], packageId, downloadId);
  }

  /** filesystem_path_call up to the exchange. */
  method BuildPathCall(client: SquidClient, opcode: byte, path: seq<byte>, allowEmpty: bool) returns (size: int)
    requires client.packet.Length == client.capacity + 1 && IsCString(path)
    modifies client.packet
    ensures if |path| > FS_PATH_MAX || (path == [] && !allowEmpty) then size == ERROR_ARGUMENT
            else Built(client, size, PathPayload(opcode, path))
  {
    var pathSize := FilesystemPathSize(path, allowEmpty);
    if pathSize < 0 || 2 + pathSize > client.capacity {
      return ERROR_ARGUMENT;
    }
    size := 2 + pathSize;
    PutOne(client, [opcode], path);
    assert PathPayload(opcode, path) == [opcode] + Counted(path);
  }

  /** squid_client_fs_list up to the exchange. */
  method BuildFsList(client: SquidClient, path: seq<byte>, cursor: u16) returns (size: int)
    requires client.packet.Length == client.capacity + 1 && IsCString(path)
    modifies client.packet
    ensures if |path| > FS_PATH_MAX then size == ERROR_ARGUMENT else Built(client, size, FsListPayload(cursor, path))
  {
    hide WriteU16;
    var pathSize := FilesystemPathSize(path, true);
    if pathSize < 0 || 4 + pathSize > client.capacity {
      return ERROR_ARGUMENT;
    }
    size := 4 + pathSize;
    PutOne(client, [OP_LIST] + WriteU16(cursor), path);
    assert FsListPayload(cursor, path) == [OP_LIST] + WriteU16(cursor) + Counted(path);
  }

  /** squid_client_fs_read up to the exchange. */
  method BuildFsRead(client: SquidClient, path: seq<byte>, offset: u32, maximum: byte) returns (size: int)
    requires client.packet.Length == client.capacity + 1 && IsCString(path)
    modifies client.packet
    ensures if |path| > FS_PATH_MAX || path == [] then size == ERROR_ARGUMENT
            else Built(client, size, FsReadPayload(offset, maximum, path))
  {
    hide WriteU32;
    var pathSize := FilesystemPathSize(path, false);
    if pathSize < 0 || 7 + pathSize > client.capacity {
      return ERROR_ARGUMENT;
    }
    size := 7 + pathSize;
    PutOne(client, [OP_READ] + WriteU32(offset) + [maximum], path);
    assert FsReadPayload(offset, maximum, path) == [OP_READ] + WriteU32(offset) + [maximum] + Counted(path);
  }

  /** squid_client_fs_write up to the exchange. */
  method BuildFsWrite(client: SquidClient, path: seq<byte>, offset: u32, flags: byte, data: Text) returns (size: int)
    requires client.packet.Length == client.capacity + 1 && IsCString(path)
    modifies client.packet
    ensures if |path| > FS_PATH_MAX || path == [] then size == ERROR_ARGUMENT
            else Built(client, size, FsWritePayload(offset, flags, path, data))
  {
    hide WriteU32;
    var pathSize := FilesystemPathSize(path, false);
    if pathSize < 0 || 8 + pathSize + |data| > client.capacity {
      return ERROR_ARGUMENT;
    }
    size := 8 + pathSize + |data|;
    PutTwo(client, [OP_WRITE] + WriteU32(offset) + [flags], path, data);
  }

  /** squid_client_fs_rename up to the exchange. */
  method BuildFsRename(client: SquidClient, from: seq<byte>, to: seq<byte>) returns (size: int)
    requires client.packet.Length == client.capacity + 1 && IsCString(from) && IsCString(to)
    modifies client.packet
    ensures if |from| > FS_PATH_MAX || from == [] || |to| > FS_PATH_MAX || to == [] then size == ERROR_ARGUMENT
            else Built(client, size, RenamePayload(from, to))
  {
    var oldSize := FilesystemPathSize(from, false);
    var newSize := FilesystemPathSize(to, false);
    if oldSize < 0 || newSize < 0 || 3 + oldSize + newSize > client.capacity {
      return ERROR_ARGUMENT;
    }
    size := 3 + oldSize + newSize;
    PutTwo(client, [OP_RENAME], from, to);
  }

  // ----- replies --------------------------------------------------------------------------------------------------

  /** What squid_client_response says of a reply payload. */
  function Judged(b: seq<byte>, opcode: byte, minimum: byte): int
    requires opcode < 0x80
  {
    if |b| < 2 || b[0] != opcode + RESPONSE_BIT then ERROR_PROTOCOL
    else if b[1] != 0 then b[1]
    else if |b| < minimum then ERROR_PROTOCOL
    else 0
  }

  /** squid_client_response: one exchange, and the verdict on its reply. `reply` is the payload received. */
  method Response(
      client: SquidClient, link: Link, requestSize: nat, opcode: byte, minimum: byte, linkUp: bool, accepted: bool)
    returns (code: int, size: nat, ghost reply: Option<seq<byte>>)
    requires client.packet.Length == client.capacity + 1 && opcode < 0x80
    requires 0 < requestSize <= client.capacity
    modifies client.packet, link
    ensures if client.Rejected(requestSize) then code == ERROR_ARGUMENT && reply == None
            else if !linkUp then code == ERROR_LINK && reply == None
            else if !accepted then code == ERROR_IO && reply == None
            else
              var t := Transacted(old(link.polls), old(link.incoming), client.capacity);
              if t.code < 0 then code == t.code && reply == None
              else
                && t.code < |old(link.incoming)| && reply == Some(old(link.incoming)[1..1 + t.code])
                && code == Judged(reply.value, opcode, minimum)
    ensures code >= 0 ==>
              && client.capacity <= PACKET_MAX && reply.Some? && 1 <= |reply.value| <= PACKET_MAX
              && code == Judged(reply.value, opcode, minimum)
              && link.outgoing == old(link.outgoing) + Frame(old(client.packet[1..1 + requestSize]))
              && ReplyOf(client.capacity, old(link.incoming))
                 == Some(Completed(Frame(reply.value), Success(reply.value)))
    ensures code == 0 ==> size == |reply.value| <= client.capacity && client.packet[..size] == reply.value
  {
    hide Transacted;
    ghost var taken;
    size, reply := 0, None;
    code, taken := client.Exchange(link, requestSize, linkUp, accepted);
    if code < 0 {
      return;
    }
    ghost var stream := old(link.incoming);
    var received := code;
    reply := Some(client.packet[..received]);
    assert stream[..1 + stream[0]] == [stream[0]] + stream[1..1 + stream[0]];
    if received < 2 || client.packet[0] != opcode + RESPONSE_BIT {
      return ERROR_PROTOCOL, 0, reply;
    }
    if client.packet[1] != 0 {
      return client.packet[1], 0, reply;
    }
    if received < minimum {
      return ERROR_PROTOCOL, 0, reply;
    }
    return 0, received, reply;
  }

  /** The reply checks of squid_client_fs_read and squid_client_retro_download accept exactly the packets the servers
      write for a chunk. */
  lemma ChunkExactly(opcode: byte, b: seq<byte>, c: RetroContext.Chunk)
    requires opcode < 0x80 && |c.data| <= 255
    ensures RetroContext.ReadChunk(opcode, b) == Some(c) <==> b == ReadBytes(opcode, c.offset, c.total, c.data)
  {
    hide ReadU32, WriteU32;
    var whole := ReadBytes(opcode, c.offset, c.total, c.data);
    if b == whole {
      assert b[2..6] == WriteU32(c.offset) && b[6..10] == WriteU32(c.total) && b[11..] == c.data;
      U32RoundTrip(b, 2, c.offset);
      U32RoundTrip(b, 6, c.total);
    }
    if RetroContext.ReadChunk(opcode, b) == Some(c) {
      U32Rewrite(b, 2);
      U32Rewrite(b, 6);
      assert b == [b[0], b[1]] + b[2..6] + b[6..10] + [b[10]] + b[11..];
    }
  }

  /** The reply check of squid_client_fs_write. */
  function WriteReply(b: seq<byte>, offset: u32, size: byte): Option<byte>
  {
    if Judged(b, OP_WRITE, 7) != 0 || |b| != 7 || b[6] > size || ReadU32(b, 2) != offset then None else Some(b[6])
  }

  /** It accepts exactly the answers to a write of `size` bytes at `offset`. */
  lemma WriteReplyExactly(b: seq<byte>, offset: u32, size: byte, n: byte)
    ensures WriteReply(b, offset, size) == Some(n) <==> n <= size && b == WriteBytes(OP_WRITE, offset, n)
  {
    hide ReadU32, WriteU32;
    if b == WriteBytes(OP_WRITE, offset, n) {
      assert b[2..6] == WriteU32(offset);
      U32RoundTrip(b, 2, offset);
    }
    if WriteReply(b, offset, size) == Some(n) {
      U32Rewrite(b, 2);
      assert b == [b[0], b[1]] + b[2..6] + [b[6]];
    }
  }

  /** squid_client_fs_read: on success the request the server will decode is on the wire, and the reply frame taken
      from the link is the server's answer with the returned chunk. */
  method FsRead(
      client: SquidClient, link: Link, path: seq<byte>, offset: u32, maximum: byte, linkUp: bool, accepted: bool)
    returns (code: int, chunk: RetroContext.Chunk, ghost reply: Option<seq<byte>>)
    requires client.packet.Length == client.capacity + 1 && IsCString(path)
    modifies client.packet, link
    ensures |path| > FS_PATH_MAX || path == [] || 7 + |path| > client.capacity ==> code == ERROR_ARGUMENT
    ensures code == 0 <==> reply.Some? && RetroContext.ReadChunk(OP_READ, reply.value) == Some(chunk)
    ensures reply.Some? && code > 0 ==> |reply.value| >= 2 && code == reply.value[1]
    ensures code == 0 ==>
              && 0 < |path| <= FS_PATH_MAX && |chunk.data| <= 255
              && 1 <= |FsReadPayload(offset, maximum, path)| <= PACKET_MAX
              && |ReadBytes(OP_READ, chunk.offset, chunk.total, chunk.data)| <= PACKET_MAX
              && link.outgoing == old(link.outgoing) + Frame(FsReadPayload(offset, maximum, path))
              && var b := ReadBytes(OP_READ, chunk.offset, chunk.total, chunk.data);
                 ReplyOf(client.capacity, old(link.incoming)) == Some(Completed(Frame(b), Success(b)))
  {
    hide ReadU32, FsReadPayload, ReadBytes, ReplyOf, Judged;
    chunk, reply := RetroContext.Chunk(0, 0, []), None;
    var requestSize := BuildFsRead(client, path, offset, maximum);
    if requestSize < 0 {
      return requestSize, chunk, reply;
    }
    var size;
    NotNothing(offset, maximum, path);
    code, size, reply := Response(client, link, requestSize, OP_READ, 11, linkUp, accepted);
    if reply.Some? {
      JudgedMeans(reply.value);
    }
    if code != 0 {
      return;
    }
    var bytes := client.packet[..];
    ghost var b := reply.value;
    assert bytes[..size] == b;
    var dataSize: nat := bytes[10];
    assert b[10] == bytes[10];
    if size != 11 + dataSize {
      return ERROR_PROTOCOL, chunk, reply;
    }
    FieldsOf(bytes, b);
    chunk := RetroContext.Chunk(ReadU32(bytes, 2), ReadU32(bytes, 6), bytes[11..size]);
    assert bytes[11..size] == b[11..];
    ChunkExactly(OP_READ, b, chunk);
  }

  lemma NotNothing(offset: u32, maximum: byte, path: Text)
    ensures |FsReadPayload(offset, maximum, path)| == 7 + |path|
  {
  }

  /** A READ reply that the header check does not pass is no chunk. */
  lemma JudgedMeans(b: seq<byte>)
    ensures var code := Judged(b, OP_READ, 11);
            && (code > 0 ==> |b| >= 2 && code == b[1])
            && (code != 0 ==> RetroContext.ReadChunk(OP_READ, b).None?)
            && (code == 0 ==> |b| >= 11 && b[0] == OP_READ + RESPONSE_BIT && b[1] == 0)
  {
  }

  lemma FieldsOf(bytes: seq<byte>, b: seq<byte>)
    requires 11 <= |b| <= |bytes| && bytes[..|b|] == b
    ensures ReadU32(bytes, 2) == ReadU32(b, 2) && ReadU32(bytes, 6) == ReadU32(b, 6)
  {
    assert forall k | 0 <= k < |b| :: bytes[k] == bytes[..|b|][k];
  }
}
