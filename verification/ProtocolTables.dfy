/** The tables of the three protocol documents: packet layouts by offset, and codes by number. */
module ProtocolTables {
  import opened Bytes
  import opened Records
  import Framing
  import FsKernel
  import FsList
  import ListPages
  import Filesystem
  import Requests
  import RetroContext
  import RetroServer
  import TcpHosts
  import TcpProxy
  import Client
  import ClientCalls

  /** A counted text stands at `at`: its length in one byte, then its bytes. */
  predicate CountedAt(b: seq<byte>, at: nat, t: seq<byte>)
  {
    at + 1 + |t| <= |b| && b[at] == |t| && b[at + 1..at + 1 + |t|] == t
  }

  /** Every packet travels behind its length, in one byte. */
  lemma FrameLayout(p: Framing.Payload)
    ensures |Framing.Frame(p)| == 1 + |p| && CountedAt(Framing.Frame(p), 0, p)
  {
  }

  // ----- requests ------------------------------------------------------------------------------------------------

  lemma Behind(head: seq<byte>, t: Requests.Text, rest: seq<byte>)
    ensures var b := head + Requests.Counted(t) + rest;
            && |b| == |head| + 1 + |t| + |rest| && b[..|head|] == head && CountedAt(b, |head|, t)
            && b[|head| + 1 + |t|..] == rest
  {
    Requests.Pieces(head + Requests.Counted(t) + rest, head, t, rest);
  }

  lemma Last(b: seq<byte>, at: nat, t: Requests.Text)
    requires at <= |b| && b[at..] == Requests.Counted(t)
    ensures CountedAt(b, at, t) && |b| == at + 1 + |t|
  {
    Requests.LastPiece(b, at, t);
  }

  lemma ListLayout(f: Requests.ListFields)
    ensures var b, p := Requests.ListPayload(f), |f.platform|;
            && |b| >= 4 && b[0] == 0x01 && ReadU16(b, 1) == f.cursor && CountedAt(b, 3, f.platform)
            && if f.model == [] then |b| == 4 + p
               else |b| == 5 + p + |f.model| && CountedAt(b, 4 + p, f.model)
  {
    hide WriteU16, ReadU16;
    var b, head := Requests.ListPayload(f), [Requests.RETRO_LIST] + WriteU16(f.cursor);
    Behind(head, f.platform, Requests.Trailing(f.model));
    assert b[0] == b[..3][0];
    Requests.Head16(b, 0x01, f.cursor);
    if f.model != [] {
      Last(b, 4 + |f.platform|, f.model);
    }
  }

  lemma SearchLayout(f: Requests.ListFields)
    ensures var b, p, q := Requests.SearchPayload(f), |f.platform|, |f.query|;
            && |b| >= 5 && b[0] == 0x02 && ReadU16(b, 1) == f.cursor
            && CountedAt(b, 3, f.platform) && CountedAt(b, 4 + p, f.query)
            && if f.model == [] then |b| == 5 + p + q
               else |b| == 6 + p + q + |f.model| && CountedAt(b, 5 + p + q, f.model)
  {
    hide WriteU16, ReadU16, CountedAt;
    var b, head := Requests.SearchPayload(f), [Requests.RETRO_SEARCH] + WriteU16(f.cursor);
    var known := head + Requests.Counted(f.platform);
    assert b == known + Requests.Counted(f.query) + Requests.Trailing(f.model);
    Behind(head, f.platform, Requests.Counted(f.query) + Requests.Trailing(f.model));
    Behind(known, f.query, Requests.Trailing(f.model));
    assert b[0] == b[..3][0];
    Requests.Head16(b, 0x02, f.cursor);
    if f.model != [] {
      Last(b, 5 + |f.platform| + |f.query|, f.model);
    }
  }

  lemma InfoLayout(cursor: u16, id: Requests.Text)
    ensures var b := Requests.InfoPayload(cursor, id);
            |b| == 4 + |id| && b[0] == 0x03 && ReadU16(b, 1) == cursor && CountedAt(b, 3, id)
  {
    hide WriteU16, ReadU16, CountedAt;
    var b, head := Requests.InfoPayload(cursor, id), [Requests.RETRO_INFO] + WriteU16(cursor);
    Behind(head, id, []);
    assert b[0] == b[..3][0];
    Requests.Head16(b, 0x03, cursor);
  }

  lemma DownloadLayout(f: Requests.DownloadFields)
    ensures var b, p := Requests.DownloadPayload(f), |f.packageId|;
            && |b| == 8 + p + |f.downloadId| && b[0] == 0x04 && ReadU32(b, 1) == f.offset && b[5] == f.maximum
            && CountedAt(b, 6, f.packageId) && CountedAt(b, 7 + p, f.downloadId)
  {
    hide WriteU32, ReadU32, CountedAt;
    var b, head := Requests.DownloadPayload(f), [Requests.RETRO_DOWNLOAD] + WriteU32(f.offset) + [f.maximum];
    Behind(head, f.packageId, Requests.Counted(f.downloadId));
    assert b[0] == b[..6][0];
    Requests.Head32(b, 0x04, f.offset, f.maximum);
    Last(b, 7 + |f.packageId|, f.downloadId);
  }

  lemma FsListLayout(cursor: u16, path: Requests.Text)
    ensures var b := Requests.FsListPayload(cursor, path);
            |b| == 4 + |path| && b[0] == 0x02 && ReadU16(b, 1) == cursor && CountedAt(b, 3, path)
  {
    hide WriteU16, ReadU16, CountedAt;
    var b, head := Requests.FsListPayload(cursor, path), [Filesystem.OP_LIST] + WriteU16(cursor);
    Behind(head, path, []);
    assert b[0] == b[..3][0];
    Requests.Head16(b, 0x02, cursor);
  }

  lemma FsReadLayout(offset: u32, maximum: byte, path: Requests.Text)
    ensures var b := Requests.FsReadPayload(offset, maximum, path);
            && |b| == 7 + |path| && b[0] == 0x03 && ReadU32(b, 1) == offset && b[5] == maximum
            && CountedAt(b, 6, path)
  {
    hide WriteU32, ReadU32, CountedAt;
    var b, head := Requests.FsReadPayload(offset, maximum, path), [Filesystem.OP_READ] + WriteU32(offset) + [maximum];
    Behind(head, path, []);
    assert b[0] == b[..6][0];
    Requests.Head32(b, 0x03, offset, maximum);
  }

  lemma FsWriteLayout(offset: u32, flags: byte, path: Requests.Text, data: Requests.Text)
    ensures var b, p := Requests.FsWritePayload(offset, flags, path, data), |path|;
            && |b| == 8 + p + |data| && b[0] == 0x04 && ReadU32(b, 1) == offset && b[5] == flags
            && CountedAt(b, 6, path) && CountedAt(b, 7 + p, data)
  {
    hide WriteU32, ReadU32, CountedAt;
    var b := Requests.FsWritePayload(offset, flags, path, data);
    var head := [Filesystem.OP_WRITE] + WriteU32(offset) + [flags];
    Behind(head, path, Requests.Counted(data));
    assert b[0] == b[..6][0];
    Requests.Head32(b, 0x04, offset, flags);
    Last(b, 7 + |path|, data);
  }

  /** STAT is 1, MKDIR 5 and DELETE 6, with one path each; RENAME is 7, with the old path in front of the new one. */
  lemma FsPathLayout(opcode: byte, path: Requests.Text, other: Requests.Text)
    ensures var b := Requests.PathPayload(opcode, path);
            |b| == 2 + |path| && b[0] == opcode && CountedAt(b, 1, path)
    ensures var b := Requests.RenamePayload(path, other);
            && |b| == 3 + |path| + |other| && b[0] == 0x07
            && CountedAt(b, 1, path) && CountedAt(b, 2 + |path|, other)
    ensures Filesystem.OP_STAT == 1 && Filesystem.OP_MKDIR == 5 && Filesystem.OP_DELETE == 6
  {
    hide CountedAt;
    var b := Requests.RenamePayload(path, other);
    Behind([opcode], path, []);
    Behind([Filesystem.OP_RENAME], path, Requests.Counted(other));
    assert b[0] == b[..1][0];
    Last(b, 2 + |path|, other);
  }

  /** The TCP server takes CONNECT exactly from a packet with a port other than 0 and a host that fills it. */
  lemma ConnectLayout(b: seq<byte>, port: u16, host: seq<byte>)
    ensures TcpProxy.ConnectRequest(b) == Some((port, host))
            <==> && |b| == 4 + |host| && ReadU16(b, 1) == port && port != 0 && CountedAt(b, 3, host)
                 && TcpHosts.GoodHost(host)
  {
    hide ReadU16;
    if |b| >= 4 {
      assert b[4..|b|] == b[4..];
    }
  }

  /** It takes WRITE exactly from a packet with 1 to 253 data bytes that fill it. */
  lemma TcpWriteLayout(b: seq<byte>, data: seq<byte>)
    requires |b| <= PACKET_MAX
    ensures TcpProxy.WriteRequest(b) == Some(data) <==> |b| == 2 + |data| && 1 <= |data| <= 253 && CountedAt(b, 1, data)
  {
    if |b| >= 2 {
      assert b[2..|b|] == b[2..];
    }
  }

  // ----- answers -------------------------------------------------------------------------------------------------

  /** Entries of LIST and SEARCH. */
  lemma EntryLayout(id: Requests.Text, name: Requests.Text)
    ensures var b := Encode(Entry(id, name));
            |b| == 2 + |id| + |name| && CountedAt(b, 0, id) && CountedAt(b, 1 + |id|, name)
  {
    hide CountedAt;
    var b := Encode(Entry(id, name));
    assert b == [] + Requests.Counted(id) + Requests.Counted(name);
    Behind([], id, Requests.Counted(name));
    Last(b, 1 + |id|, name);
  }

  /** Values of INFO. */
  lemma TlvLayout(kind: byte, value: Requests.Text)
    ensures var b := Encode(Tlv(kind, value)); |b| == 2 + |value| && b[0] == kind && CountedAt(b, 1, value)
  {
    hide CountedAt;
    var b := Encode(Tlv(kind, value));
    assert b == [kind] + Requests.Counted(value) + [];
    Behind([kind], value, []);
  }

  /** Entries of a directory. */
  lemma FileLayout(kind: byte, name: Requests.Text, size: u32)
    ensures var b := Encode(File(kind, name, size));
            |b| == 6 + |name| && b[0] == kind && CountedAt(b, 1, name) && ReadU32(b, 2 + |name|) == size
  {
    hide CountedAt, ReadU32, WriteU32;
    var b := Encode(File(kind, name, size));
    assert b == [kind] + Requests.Counted(name) + WriteU32(size);
    Behind([kind], name, WriteU32(size));
    assert b[2 + |name|..2 + |name| + 4] == b[2 + |name|..];
    U32RoundTrip(b, 2 + |name|, size);
  }

  /** STAT: type 1 for files, 2 for directories, 3 for others; nine mode bits; the size of a file, or all ones if it
      does not fit, and 0 for the rest; the time of the last change, or 0 if it does not fit. */
  lemma StatLayout(info: FsKernel.FileInfo)
    ensures var b := Filesystem.StatBytes(0x01, info);
            && |b| == 13 && b[0] == 0x81 && b[1] == 0x00
            && b[2] == (match info.kind case Regular => 1 case Folder => 2 case Special => 3)
            && ReadU16(b, 3) == info.mode % 512
            && (info.kind.Regular? && 0 <= info.size <= 0xFFFF_FFFF ==> ReadU32(b, 5) == info.size)
            && (info.kind.Regular? && !(0 <= info.size <= 0xFFFF_FFFF) ==> ReadU32(b, 5) == 0xFFFF_FFFF)
            && (!info.kind.Regular? ==> ReadU32(b, 5) == 0)
            && (0 <= info.modified <= 0xFFFF_FFFF ==> ReadU32(b, 9) == info.modified)
            && (!(0 <= info.modified <= 0xFFFF_FFFF) ==> ReadU32(b, 9) == 0)
  {
    hide ReadU32, WriteU32, ReadU16, WriteU16;
    var b := Filesystem.StatBytes(0x01, info);
    var size: u32 := Filesystem.SizeField(info);
    var time: u32 := if info.modified < 0 || info.modified > 0xFFFF_FFFF then 0 else info.modified;
    var head, x, y, z := b[..3], WriteU16(info.mode % 0x200), WriteU32(size), WriteU32(time);
    assert b == head + x + y + z;
    assert At(b, 0, head + x + y + z);
    AtAppend(b, 0, head + x + y, z);
    AtAppend(b, 0, head + x, y);
    AtAppend(b, 0, head, x);
    U16RoundTrip(b, 3, info.mode % 0x200);
    U32RoundTrip(b, 5, size);
    U32RoundTrip(b, 9, time);
  }

  /** Chunks of READ and DOWNLOAD. */
  lemma ChunkLayout(opcode: byte, offset: u32, total: u32, data: Requests.Text)
    requires opcode < 0x80
    ensures var b := Filesystem.ReadBytes(opcode, offset, total, data);
            && |b| == 11 + |data| && b[0] == 0x80 + opcode && b[1] == 0x00
            && ReadU32(b, 2) == offset && ReadU32(b, 6) == total && CountedAt(b, 10, data)
  {
    hide ReadU32, WriteU32, CountedAt;
    var b, head := Filesystem.ReadBytes(opcode, offset, total, data), [opcode + RESPONSE_BIT, FsList.FS_OK];
    var x, y := WriteU32(offset), WriteU32(total);
    assert b == (head + x + y) + Requests.Counted(data) + [];
    Behind(head + x + y, data, []);
    assert At(b, 0, head + x + y);
    AtAppend(b, 0, head + x, y);
    AtAppend(b, 0, head, x);
    U32RoundTrip(b, 2, offset);
    U32RoundTrip(b, 6, total);
  }

  /** The answer to WRITE. */
  lemma WriteAnswerLayout(opcode: byte, offset: u32, count: byte)
    requires opcode < 0x80
    ensures var b := Filesystem.WriteBytes(opcode, offset, count);
            |b| == 7 && b[0] == 0x80 + opcode && b[1] == 0x00 && ReadU32(b, 2) == offset && b[6] == count
  {
    hide ReadU32, WriteU32;
    var b, head := Filesystem.WriteBytes(opcode, offset, count), [opcode + RESPONSE_BIT, FsList.FS_OK];
    assert At(b, 0, head + WriteU32(offset) + [count]);
    AtAppend(b, 0, head + WriteU32(offset), [count]);
    AtAppend(b, 0, head, WriteU32(offset));
    U32RoundTrip(b, 2, offset);
  }

  /** Retro Vault: version 1, four features, page header 5, chunk header 11 and the data bytes of a chunk. An opcode
      that is not known is answered with its response opcode and BAD_REQUEST, and fetches nothing. */
  lemma RetroTable(c: RetroContext.State, p: RetroServer.Packet, capacity: nat)
    requires RetroServer.Small(c) && 2 <= capacity <= 255 && p.request != []
    ensures p.request == [0x00] && capacity >= 7 ==>
              RetroServer.Reply(c, p, capacity)
              == (c, Some([0x80, 0x00, 0x01, 0x0F, 5, 11, if capacity > 11 then capacity - 11 else 0]))
    ensures p.request == [0x00] && capacity < 7 ==> RetroServer.Reply(c, p, capacity) == (c, None)
    ensures p.request[0] > 0x04 || (p.request[0] == 0x00 && |p.request| > 1) ==>
              RetroServer.Reply(c, p, capacity) == (c, Some([0x80 + p.request[0] % 0x80, 0x01]))
  {
  }

  // ----- codes ---------------------------------------------------------------------------------------------------

  /** The filesystem's statuses, by number. */
  lemma FsStatusTable(e: FsList.Errno)
    ensures var s := FsList.StatusFromErrno(e);
            && (s == 0x02 <==> e == FsList.ENOENT) && (s == 0x03 <==> e == FsList.ENOTDIR)
            && (s == 0x04 <==> e == FsList.EISDIR)
            && (s == 0x05 <==> e in {FsList.EACCES, FsList.EPERM, FsList.ELOOP})
            && (s == 0x06 <==> e == FsList.EEXIST)
            && (s == 0x07 <==> e in {FsList.ENAMETOOLONG, FsList.EOVERFLOW, FsList.EFBIG})
            && (s == 0x08 <==> e == FsList.ENOTEMPTY) && (s == 0x09 <==> e == FsList.EROFS)
            && (s == 0x0A <==> e in {FsList.ENOSPC, FsList.EDQUOT}) && 0x02 <= s <= 0x0B
  {
  }

  /** Why READ refuses: 4 for directories, 5 for other objects, 7 for files beyond 32 bits, 1 past the end. */
  lemma ReadRefusalTable(info: FsKernel.FileInfo, offset: u32)
    ensures var r := Filesystem.ReadRefusal(info, offset);
            && (r == Some(0x04) <==> info.kind == FsKernel.Folder)
            && (r == Some(0x05) <==> info.kind == FsKernel.Special)
            && (r == Some(0x07) <==> info.kind == FsKernel.Regular && !(0 <= info.size <= 0xFFFF_FFFF))
            && (r == Some(0x01) <==> info.kind == FsKernel.Regular && 0 <= info.size < offset)
  {
  }

  /** Why LIST refuses the entry in turn: 7 for a name that no record holds, or that a page does not even have room for
      alone. */
  lemma FillRefuses(es: seq<FsList.Dirent>, end: FsList.Errno, index: u16, cursor: u16, room: nat)
    requires es != [] && !FsList.Hidden(es[0]) && index >= cursor
    ensures |es[0].name| > 243 ==> FsList.Fill(es, end, index, cursor, room, false) == ListPages.Failed(0x07)
    ensures es[0].stat.StatOk? && 6 + |es[0].name| > room ==>
              FsList.Fill(es, end, index, cursor, room, false) == ListPages.Failed(0x07)
  {
    FsList.FillTurn(es, end, index, cursor, room, false);
  }

  /** The TCP proxy's codes and times. */
  lemma TcpTable(ms: nat, e: TcpProxy.Errno)
    ensures TcpProxy.Clamped(ms) == if ms == 0 then 5000 else if ms > 60000 then 60000 else ms
    ensures TcpProxy.FailureStatus(e) == if e == TcpProxy.ETIMEDOUT then 0x06 else 0x04
    ensures TcpProxy.TcpContext.Family(TcpProxy.Inet) == 4 && TcpProxy.TcpContext.Family(TcpProxy.Inet6) == 6
  {
  }

  /** The status of a CONNECT that fails, by the first check it does not pass. */
  lemma ConnectTable(
      c: TcpProxy.TcpContext, request: seq<byte>, found: Option<seq<TcpProxy.Address>>, e: TcpProxy.Errno)
    ensures var s, fields := c.ConnectStatus(request, found, e), TcpProxy.ConnectRequest(request);
            && (s == 0x01 <==> fields.None?)
            && (s == 0x07 <==> fields.Some? && !TcpHosts.Allowed(c.allowedHosts, fields.value.1))
            && (s == 0x03 <==> fields.Some? && TcpHosts.Allowed(c.allowedHosts, fields.value.1) && found.None?)
            && s in {0x01, 0x03, 0x04, 0x06, 0x07}
  {
    hide TcpProxy.ConnectRequest, TcpHosts.Allowed;
  }

  /** What WRITE and READ make of a wait and of the call behind it. */
  lemma JudgeTable(ms: nat, e: TcpProxy.Errno, f: TcpProxy.Errno, n: int, data: seq<byte>)
    ensures TcpProxy.Judge([TcpProxy.Waited(TcpProxy.Nothing, ms, e)], ms) == Some(TcpProxy.Idle)
    ensures TcpProxy.Judge([TcpProxy.Waited(TcpProxy.PollError, ms, e)], ms) == Some(TcpProxy.Fails)
    ensures TcpProxy.Judge([TcpProxy.Waited(TcpProxy.Ready, ms, e), TcpProxy.Sent(n, f)], ms)
            == Some(if n > 0 then TcpProxy.Moved else if n < 0 && f == TcpProxy.EAGAIN then TcpProxy.Idle
                    else TcpProxy.Fails)
    ensures TcpProxy.Judge([TcpProxy.Waited(TcpProxy.Ready, ms, e), TcpProxy.Got(n, data, f)], ms)
            == Some(if n > 0 then TcpProxy.Moved else if n == 0 then TcpProxy.Ended
                    else if f == TcpProxy.EAGAIN then TcpProxy.Idle else TcpProxy.Fails)
  {
  }

  /** The client's codes: a request is taken exactly with 1 to capacity bytes, and a capacity of 1 to 255; -6 is a
      cancelled wait and -2 a lost link; the verdict on a reply is 0 for an answer with status 0 that is long enough,
      the status if it is another one, and -4 for anything else. */
  lemma ClientTable(c: Client.SquidClient, size: nat, b: seq<byte>, opcode: byte, minimum: byte)
    requires opcode < 0x80
    ensures !c.Rejected(size) <==> 1 <= size <= c.capacity <= 255
    ensures Client.WaitCode(Client.GoOn) == 0 && Client.WaitCode(Client.Cancel) == -6
    ensures Client.WaitCode(Client.LinkLost) == -2
    ensures var code, answer := ClientCalls.Judged(b, opcode, minimum), |b| >= 2 && b[0] == 0x80 + opcode;
            && (code == 0 <==> answer && b[1] == 0 && |b| >= minimum)
            && (code > 0 <==> answer && b[1] != 0) && (code > 0 ==> code == b[1]) && (code < 0 ==> code == -4)
  {
  }
}
