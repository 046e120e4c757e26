/** The rooted filesystem plugin over a kernel that may answer anything: descriptors are given back on every branch,
    only descendants of the root named by the request are touched, and statuses come from the call that failed. */
module Filesystem {
  import opened Bytes
  import opened FsPath
  import opened Records
  import opened FsList
  import opened FsPage
  import opened FsKernel

  const OP_CAPABILITIES: byte := 0
  const OP_STAT: byte := 1
  const OP_LIST: byte := 2
  const OP_READ: byte := 3
  const OP_WRITE: byte := 4
  const OP_MKDIR: byte := 5
  const OP_DELETE: byte := 6
  const OP_RENAME: byte := 7

  const READ_HEADER: nat := 11

  /** Every place touched since `before` lies on the way down `path`: below the root, as deep as the components
      walked. */
  ghost predicate OnTheWay(before: seq<Position>, after: seq<Position>, path: seq<byte>)
  {
    && before <= after
    && forall i | |before| <= i < |after| :: after[i] != [] && after[i] <= Components(path)
  }

  /** The two bytes of an answer without fields. */
  predicate Plain(b: seq<byte>, opcode: byte, status: byte)
    requires opcode < 0x80
  {
    b == [opcode + RESPONSE_BIT, status]
  }

  function KindByte(k: FileKind): byte { match k case Regular => 1 case Folder => 2 case Special => 3 }

  /** file_size_from_stat. */
  function SizeField(info: FileInfo): u32
  {
    if !info.kind.Regular? then 0
    else if info.size < 0 || info.size > 0xFFFF_FFFF then 0xFFFF_FFFF
    else info.size
  }

  /** read_path_request: the path that fills the request behind its length byte, if it is admitted. */
  function PathField(request: seq<byte>, at: nat, allowEmpty: bool): (r: Option<seq<byte>>)
    ensures r.Some? ==> Admitted(r.value, allowEmpty) && at < |request| && r.value == request[at + 1..]
  {
    if |request| <= at || request[at] != |request| - at - 1 || !Admitted(request[at + 1..], allowEmpty) then None
    else Some(request[at + 1..])
  }

  /** The STAT answer for what the kernel reported. */
  function StatBytes(opcode: byte, info: FileInfo): (b: seq<byte>)
    requires opcode < 0x80
    ensures |b| == 13 && b[0] == opcode + RESPONSE_BIT
  {
    [opcode + RESPONSE_BIT, FS_OK, KindByte(info.kind)] + WriteU16(info.mode % 0x200) + WriteU32(SizeField(info))
    + WriteU32(if info.modified < 0 || info.modified > 0xFFFF_FFFF then 0 else info.modified)
  }

  /** The READ answer that carries `data` of a file of `total` bytes. */
  function ReadBytes(opcode: byte, offset: u32, total: u32, data: seq<byte>): (b: seq<byte>)
    requires opcode < 0x80 && |data| <= 255
    ensures |b| == READ_HEADER + |data| && b[0] == opcode + RESPONSE_BIT
  {
    ([opcode + RESPONSE_BIT, FS_OK] + WriteU32(offset) + WriteU32(total) + [|data|]) + data
  }

  /** The WRITE answer. */
  function WriteBytes(opcode: byte, offset: u32, count: nat): (b: seq<byte>)
    requires opcode < 0x80 && count <= 255
    ensures |b| == 7 && b[0] == opcode + RESPONSE_BIT
  {
    [opcode + RESPONSE_BIT, FS_OK] + WriteU32(offset) + [count]
  }

  /** Why READ refuses a file it could open. */
  function ReadRefusal(info: FileInfo, offset: u32): (r: Option<byte>)
    ensures r.None? <==> info.kind.Regular? && offset <= info.size <= 0xFFFF_FFFF
  {
    if info.kind.Folder? then Some(FS_IS_DIRECTORY)
    else if !info.kind.Regular? then Some(FS_ACCESS_DENIED)
    else if info.size < 0 || info.size > 0xFFFF_FFFF then Some(FS_TOO_LARGE)
    else if offset > info.size then Some(FS_BAD_REQUEST)
    else None
  }

  /** What opening a leaf asked of the kernel when `call` failed: something only if it was that open. */
  function Attempted(place: Position, mode: OpenMode, call: CallName): seq<Change>
  {
    if call == Opens(mode) then Opening(place, mode, false) else []
  }

  /** What a request may make the kernel change, by its bytes: WRITE opens with CREATE exactly for bit 0 and with
      TRUNCATE exactly for bit 1 of its flags, and nothing else opens for writing; only MKDIR makes directories, only
      RENAME renames, and only DELETE removes, as a directory exactly when the kernel has just said that it is one. */
  ghost predicate Licensed(request: seq<byte>, c: Change, answers: seq<Answer>)
    requires request != []
  {
    match c
    case Opened(_, mode, _) =>
      && request[0] == 4 && |request| > 5 && mode.Writing?
      && (mode.create <==> request[5] % 2 == 1) && (mode.truncate <==> request[5] / 2 % 2 == 1)
    case Wrote(_, offset, data, _) =>
      && request[0] == 4 && |request| > 5 && offset == ReadU32(request, 1)
      && |data| <= |request| && data == request[|request| - |data|..]
    case Made(_, _) => request[0] == 5
    case Removed(place, folder, _) =>
      && request[0] == 6 && answers != []
      && var last := answers[|answers| - 1];
         last.Statted? && last.place == place && (folder <==> last.info.kind == Folder)
    case Renamed(_, _, _) => request[0] == 7
  }

  /** Every change since is licensed. */
  ghost predicate AllLicensed(request: seq<byte>, before: seq<Change>, after: seq<Change>, answers: seq<Answer>)
    requires request != []
  {
    before <= after && forall i | |before| <= i < |after| :: Licensed(request, after[i], answers)
  }

  lemma NoChange(request: seq<byte>, changes: seq<Change>, answers: seq<Answer>)
    requires request != []
    ensures AllLicensed(request, changes, changes, answers)
  {
  }

  lemma OneChange(request: seq<byte>, before: seq<Change>, c: Change, answers: seq<Answer>)
    requires request != [] && Licensed(request, c, answers)
    ensures AllLicensed(request, before, before + [c], answers)
  {
  }

  /** What HandleWrite reports to have been changed. */
  lemma WriteLicensed(
      request: seq<byte>, f: WriteFields, place: Position, before: seq<Change>, after: seq<Change>, ok: bool,
      wrote: bool, answers: seq<Answer>)
    requires WriteRequest(request) == Some(f) && request[0] == OP_WRITE
    requires var mode := Writing(request[5] % 2 == 1, request[5] / 2 % 2 == 1);
             || after == before
             || after == before + Opening(place, mode, ok)
             || after == before + Opening(place, mode, ok) + [Wrote(place, f.offset, f.data, wrote)]
    ensures AllLicensed(request, before, after, answers)
  {
    hide Admitted;
    DataIsLast(request, f);
  }

  lemma WriteChanges(
      request: seq<byte>, f: WriteFields, before: seq<Change>, after: seq<Change>, seen: Option<FileInfo>,
      count: Option<nat>, call: CallName, answers: seq<Answer>)
    requires WriteRequest(request) == Some(f) && request[0] == OP_WRITE
    requires var mode, place := Writing(request[5] % 2 == 1, request[5] / 2 % 2 == 1), Components(f.path);
             if seen.None? then
               after == before + (if call == Stats then Opening(place, mode, true) else Attempted(place, mode, call))
             else if !seen.value.kind.Regular? then after == before + Opening(place, mode, true)
             else after == before + Opening(place, mode, true) + [Wrote(place, f.offset, f.data, count.Some?)]
    ensures AllLicensed(request, before, after, answers)
  {
    hide Admitted, Components, WriteRequest, AllLicensed, Opening;
    assert before + [] == before;
    WriteLicensed(request, f, Components(f.path), before, after, seen.Some? || call == Stats, count.Some?, answers);
  }

  lemma MadeOrRemoved(
      request: seq<byte>, before: seq<Change>, after: seq<Change>, place: Position, seen: Option<FileInfo>, ok: bool,
      answers: seq<Answer>)
    requires request != [] && (request[0] == OP_MKDIR || request[0] == OP_DELETE)
    requires if request[0] == OP_MKDIR then after == before + [Made(place, ok)]
             else
               && seen.Some? && after == before + [Removed(place, seen.value.kind == Folder, ok)]
               && answers != [] && answers[|answers| - 1] == Statted(place, seen.value)
    ensures AllLicensed(request, before, after, answers)
  {
    OneChange(request, before, after[|after| - 1], answers);
  }

  lemma RenamedOne(
      request: seq<byte>, before: seq<Change>, after: seq<Change>, from: Position, to: Position, ok: bool,
      answers: seq<Answer>)
    requires request != [] && request[0] == OP_RENAME && after == before + [Renamed(from, to, ok)]
    ensures AllLicensed(request, before, after, answers)
  {
    OneChange(request, before, after[|after| - 1], answers);
  }

  lemma DataIsLast(request: seq<byte>, f: WriteFields)
    requires WriteRequest(request) == Some(f)
    ensures |f.data| <= |request| && f.data == request[|request| - |f.data|..] && f.offset == ReadU32(request, 1)
  {
    hide Admitted;
  }

  /** The cursor and path of a LIST request. */
  function ListRequest(request: seq<byte>): (r: Option<(u16, seq<byte>)>)
    ensures r.Some? ==> Admitted(r.value.1, true)
  {
    match PathField(request, 3, true)
    case None => None
    case Some(path) => Some((ReadU16(request, 1), path))
  }

  /** The fields of a READ request. */
  datatype ReadFields = ReadFields(offset: u32, maximum: byte, path: seq<byte>)

  function ReadRequest(request: seq<byte>): (r: Option<ReadFields>)
    ensures r.Some? ==> Admitted(r.value.path, false)
  {
    match PathField(request, 6, false)
    case None => None
    case Some(path) => Some(ReadFields(ReadU32(request, 1), request[5], path))
  }

  /** The fields of a WRITE request. */
  datatype WriteFields = WriteFields(offset: u32, flags: byte, path: seq<byte>, data: seq<byte>) {
    function Mode(): OpenMode { Writing(flags % 2 == 1, flags / 2 % 2 == 1) }
  }

  function WriteRequest(request: seq<byte>): (r: Option<WriteFields>)
    ensures r.Some? ==> Admitted(r.value.path, false) && r.value.flags < 4 && |r.value.data| <= 255
  {
    if |request| < 8 then None
    else
      var pathSize: nat := request[6];
      if request[5] >= 4 || pathSize > |request| - 7 || !Admitted(request[7..7 + pathSize], false) then None
      else
        var at := 7 + pathSize;
        if at >= |request| || request[at] != |request| - at - 1 then None
        else Some(WriteFields(ReadU32(request, 1), request[5], request[7..at], request[at + 1..]))
  }

  /** The flags of WRITE: CREATE is bit 0 of the sixth byte of the request, TRUNCATE bit 1. */
  lemma WriteMode(request: seq<byte>, f: WriteFields)
    requires WriteRequest(request) == Some(f)
    ensures |request| >= 8 && f.Mode() == Writing(request[5] % 2 == 1, request[5] / 2 % 2 == 1)
  {
    hide Admitted;
  }

  /** The two paths of a RENAME request. */
  function RenameRequest(request: seq<byte>): (r: Option<(seq<byte>, seq<byte>)>)
    ensures r.Some? ==> Admitted(r.value.0, false) && Admitted(r.value.1, false)
  {
    if |request| < 4 then None
    else
      var oldSize: nat := request[1];
      if oldSize > |request| - 2 || !Admitted(request[2..2 + oldSize], false) then None
      else
        var at := 2 + oldSize;
        if at >= |request| || request[at] != |request| - at - 1 || !Admitted(request[at + 1..], false) then None
        else Some((request[2..at], request[at + 1..]))
  }

  /** read_path_request, through a path buffer of its own. */
  method ReadPathRequest(request: seq<byte>, at: nat, allowEmpty: bool) returns (r: Option<seq<byte>>)
    ensures r == PathField(request, at, allowEmpty)
  {
    if |request| <= at || request[at] != |request| - at - 1 {
      return None;
    }
    var path := new byte[FS_PATH_MAX + 1];
    var ok := PathIsValid(request[at + 1..], allowEmpty, path);
    return if ok then Some(request[at + 1..]) else None;
  }

  /** The decoding part of handle_write. */
  method ReadWriteRequest(request: seq<byte>) returns (r: Option<WriteFields>)
    ensures r == WriteRequest(request)
  {
    hide Admitted;
    if |request| < 8 {
      return None;
    }
    var offset, flags, pathSize := ReadU32(request, 1), request[5], request[6] as nat;
    if flags >= 4 || pathSize > |request| - 7 {
      return None;
    }
    var path := new byte[FS_PATH_MAX + 1];
    var ok := PathIsValid(request[7..7 + pathSize], false, path);
    if !ok {
      return None;
    }
    var cursor := 7 + pathSize;
    if cursor >= |request| || request[cursor] != |request| - cursor - 1 {
      return None;
    }
    return Some(WriteFields(offset, flags, request[7..cursor], request[cursor + 1..]));
  }

  /** The decoding part of handle_rename. */
  method ReadRenameRequest(request: seq<byte>) returns (r: Option<(seq<byte>, seq<byte>)>)
    ensures r == RenameRequest(request)
  {
    hide Admitted;
    if |request| < 4 {
      return None;
    }
    var oldSize: nat := request[1];
    if oldSize > |request| - 2 {
      return None;
    }
    var oldPath, newPath := new byte[FS_PATH_MAX + 1], new byte[FS_PATH_MAX + 1];
    var ok := PathIsValid(request[2..2 + oldSize], false, oldPath);
    var cursor := 2 + oldSize;
    if !ok || cursor >= |request| || request[cursor] != |request| - cursor - 1 {
      return None;
    }
    ok := PathIsValid(request[cursor + 1..], false, newPath);
    return if ok then Some((request[2..cursor], request[cursor + 1..])) else None;
  }

  class FsContext {
    const kernel: Kernel
    const rootFd: int
    const readOnly: bool

    constructor (kernel: Kernel, rootFd: int, readOnly: bool)
      ensures this.kernel == kernel && this.rootFd == rootFd && this.readOnly == readOnly
    {
      this.kernel, this.rootFd, this.readOnly := kernel, rootFd, readOnly;
    }

    /** The root descriptor is open and stands at the root. */
    ghost predicate Ready()
      reads kernel
    {
      kernel.Valid() && rootFd in kernel.table && kernel.table[rootFd] == []
    }

    /** A call of the walk failed last, and errno still tells why. */
    ghost predicate WalkFailed()
      reads kernel
    {
      kernel.errno == kernel.failure.errno && (kernel.failure.call == Dups || kernel.failure.call == Opens(Reading))
    }

    /** Nothing was modified, and no stat, read or write was answered. */
    twostate predicate Silent()
      reads kernel
    {
      kernel.changes == old(kernel.changes) && kernel.answers == old(kernel.answers)
    }

    /** One turn of the walk: opens the child and closes the directory it was opened in, in any case. `base` are the
        descriptors that were open before the walk. */
    method StepDown(fd: int, component: seq<byte>, ghost base: map<int, Position>, ghost done: Position)
      returns (nextFd: int)
      requires kernel.Valid() && GoodName(component) && 0 <= fd && fd !in base && kernel.table == base[fd := done]
      modifies kernel
      ensures kernel.Valid() && -1 <= nextFd
      ensures nextFd >= 0 ==> nextFd !in base && kernel.table == base[nextFd := done + [component]]
      ensures nextFd < 0 ==> kernel.table == base && WalkFailed()
      ensures kernel.touched == old(kernel.touched) + [done + [component]] && Silent()
    {
      nextFd := kernel.OpenAt(fd, component, Reading);
      var savedErrno := kernel.errno;
      kernel.Close(fd);
      if nextFd < 0 {
        kernel.errno := savedErrno;
        assert kernel.table == base;
        return;
      }
      assert kernel.table == base[nextFd := done + [component]];
    }

    /** The walk down `path` stands before the token at `at`, holding one descriptor at the place `done`. */
    ghost predicate Walking(
        path: seq<byte>, at: nat, fd: int, base: map<int, Position>, done: Position, before: seq<Position>)
      reads kernel
    {
      && at <= |path| && kernel.Valid() && 0 <= fd && fd !in base && kernel.table == base[fd := done]
      && done + Tokens(path, at) == Components(path) && OnTheWay(before, kernel.touched, path)
    }

    /** One strtok_r token of the walk. */
    method WalkToken(
        path: seq<byte>, at: nat, fd: int, ghost base: map<int, Position>, ghost done: Position,
        ghost before: seq<Position>)
      returns (nextFd: int, nextAt: nat, ghost next: Position)
      requires Walking(path, at, fd, base, done, before) && at < |path| && AllGood(Components(path))
      modifies kernel
      ensures Silent() && -1 <= nextFd && at < nextAt
      ensures nextFd >= 0 ==> Walking(path, nextAt, nextFd, base, next, before)
      ensures nextFd < 0 ==>
                && kernel.Valid() && kernel.table == base && WalkFailed()
                && OnTheWay(before, kernel.touched, path)
    {
      hide Components, Tokens, OnTheWay, AllGood, GoodName, SkipSeparators, TokenEnd, Kernel.Valid;
      var start := SkipSeparators(path, at);
      if start == |path| {
        SameTokens(path, at);
        return fd, start, done;
      }
      var end := TokenEnd(path, start);
      var component := path[start..end];
      NextToken(path, at, done, Components(path));
      next := done + [component];
      OnTheWayStep(before, kernel.touched, path, next);
      nextFd := StepDown(fd, component, base, done);
      nextAt := if end < |path| then end + 1 else end;
    }

    /** open_directory_path: a new descriptor at the place the path names, or none at all. */
    method OpenDirectoryPath(path: seq<byte>) returns (fd: int)
      requires Ready() && Admitted(path, true)
      modifies kernel
      ensures Ready() && -1 <= fd
      ensures fd >= 0 ==> fd !in old(kernel.table) && kernel.table == old(kernel.table)[fd := Components(path)]
      ensures fd < 0 ==> kernel.table == old(kernel.table) && WalkFailed()
      ensures OnTheWay(old(kernel.touched), kernel.touched, path) && Silent()
    {
      WalkedComponents(path);
      hide Components, Admitted, Tokens, OnTheWay, AllGood, GoodName, SkipSeparators, TokenEnd;
      ghost var base, done, before := kernel.table, [], kernel.touched;
      fd := kernel.Dup(rootFd);
      OnTheWayStart(before, path);
      if fd < 0 {
        return;
      }
      var at := 0;
      assert [] + Tokens(path, 0) == Tokens(path, 0);
      while at < |path|
        invariant Walking(path, at, fd, base, done, before) && Silent()
        decreases |path| - at
      {
        fd, at, done := WalkToken(path, at, fd, base, done, before);
        if fd < 0 {
          return;
        }
      }
      NoMoreTokens(path);
      assert done + [] == done;
    }

    /** open_parent_directory: the directory of the path's last component, and that component. */
    method OpenParentDirectory(path: seq<byte>) returns (fd: int, leaf: seq<byte>)
      requires Ready() && Admitted(path, false)
      modifies kernel
      ensures Ready() && -1 <= fd && GoodName(leaf)
      ensures fd >= 0 ==>
                && fd !in old(kernel.table) && kernel.table == old(kernel.table)[fd := Components(ParentOf(path))]
                && kernel.table[fd] + [leaf] == Components(path)
      ensures fd < 0 ==> kernel.table == old(kernel.table) && WalkFailed()
      ensures OnTheWay(old(kernel.touched), kernel.touched, path) && Silent()
    {
      ParentAndLeaf(path);
      leaf := LeafOf(path);
      fd := OpenDirectoryPath(ParentOf(path));
    }

    /** The status of the call that failed, whatever close did to errno since. */
    ghost predicate Reported(b: seq<byte>, opcode: byte)
      requires opcode < 0x80
      reads kernel
    {
      Plain(b, opcode, StatusFromErrno(kernel.failure.errno))
    }

    /** What the kernel reports about the place a path names, or the status of the call that failed. */
    method LookAt(path: seq<byte>) returns (ok: bool, info: FileInfo, status: byte)
      requires Ready() && Admitted(path, true)
      modifies kernel
      ensures Ready() && kernel.table == old(kernel.table) && kernel.changes == old(kernel.changes)
      ensures OnTheWay(old(kernel.touched), kernel.touched, path)
      ensures ok ==> kernel.answers == old(kernel.answers) + [Statted(Components(path), info)]
      ensures !ok ==> status == StatusFromErrno(kernel.failure.errno)
    {
      hide StatusFromErrno, Components, Admitted, OnTheWay;
      OnTheWayStart(kernel.touched, path);
      if path == [] {
        RootComponents();
        ok, info := kernel.FStat(rootFd);
        status := StatusFromErrno(kernel.errno);
      } else {
        AdmittedNonEmpty(path);
        var parentFd, leaf := OpenParentDirectory(path);
        status := StatusFromErrno(kernel.errno);
        ok, info := false, FileInfo(Regular, 0, 0, 0);
        if parentFd >= 0 {
          OnTheWayStep(old(kernel.touched), kernel.touched, path, Components(path));
          ok, info := kernel.FStatAt(parentFd, leaf);
          status := StatusFromErrno(kernel.errno);
          kernel.Close(parentFd);
          assert kernel.table == old(kernel.table);
        }
      }
    }

    /** STAT. `seen` is what the kernel reported about the file. */
    method HandleStat(opcode: byte, request: seq<byte>, response: array<byte>)
      returns (size: int, ghost seen: Option<FileInfo>)
      requires Ready() && opcode < 0x80 && 2 <= response.Length
      modifies kernel, response
      ensures Ready() && kernel.table == old(kernel.table) && kernel.changes == old(kernel.changes)
      ensures match PathField(request, 1, true)
              case None =>
                size == 2 && Plain(response[..2], opcode, FS_BAD_REQUEST) && kernel.touched == old(kernel.touched)
              case Some(path) =>
                && OnTheWay(old(kernel.touched), kernel.touched, path)
                && match seen
                   case None => size == 2 && Reported(response[..2], opcode)
                   case Some(info) =>
                     && kernel.answers == old(kernel.answers) + [Statted(Components(path), info)]
                     && if response.Length < 13 then size == -1
                        else size == 13 && response[..13] == StatBytes(opcode, info)
    {
      hide StatBytes, StatusFromErrno, Components, Admitted, OnTheWay;
      seen := None;
      var field := ReadPathRequest(request, 1, true);
      if field.None? {
        size := WriteError(opcode, FS_BAD_REQUEST, response);
        return;
      }
      var ok, info, status := LookAt(field.value);
      if !ok {
        size := WriteError(opcode, status, response);
        return;
      }
      seen := Some(info);
      if response.Length < 13 {
        return -1, seen;
      }
      CopyInto(response, 0, StatBytes(opcode, info));
      size := 13;
    }

    /** LIST over the stream `d` that readdir and fstatat give. `reached` says that there is a stream. Closing it is the
        last call, so errno is then what closedir left. */
    method HandleList(opcode: byte, request: seq<byte>, d: Listing, response: array<byte>)
      returns (size: int, ghost reached: bool)
      requires Ready() && opcode < 0x80 && 2 <= response.Length <= PACKET_MAX
      modifies kernel, response
      ensures Ready() && kernel.table == old(kernel.table) && kernel.changes == old(kernel.changes)
      ensures match ListRequest(request)
              case None =>
                size == 2 && Plain(response[..2], opcode, FS_BAD_REQUEST) && kernel.touched == old(kernel.touched)
              case Some((cursor, path)) =>
                if cursor == CURSOR_END || response.Length < HEADER_SIZE then
                  size == 2 && Plain(response[..2], opcode, FS_BAD_REQUEST) && kernel.touched == old(kernel.touched)
                else
                  && OnTheWay(old(kernel.touched), kernel.touched, path)
                  && if !reached then size == 2 && Reported(response[..2], opcode)
                     else
                       var b := ListReply(opcode, d, cursor, response.Length, kernel.errno);
                       size == |b| && size <= response.Length && response[..size] == b
    {
      hide StatusFromErrno, Components, Admitted, ListReply;
      reached := false;
      var field := ReadPathRequest(request, 3, true);
      if field.None? {
        size := WriteError(opcode, FS_BAD_REQUEST, response);
        return;
      }
      var cursor, path := ReadU16(request, 1), field.value;
      if cursor == CURSOR_END || response.Length < HEADER_SIZE {
        size := WriteError(opcode, FS_BAD_REQUEST, response);
        return;
      }
      var directoryFd := OpenDirectoryPath(path);
      if directoryFd < 0 {
        size := WriteError(opcode, StatusFromErrno(kernel.errno), response);
        return;
      }
      var ok := kernel.Call(Lists);
      if !ok {
        var status := StatusFromErrno(kernel.errno);
        kernel.Close(directoryFd);
        assert kernel.table == old(kernel.table);
        size := WriteError(opcode, status, response);
        return;
      }
      reached := true;
      size := ListOpened(opcode, directoryFd, d, cursor, response);
      assert kernel.table == old(kernel.table);
    }

    method ListOpened(opcode: byte, fd: int, d: Listing, cursor: u16, response: array<byte>) returns (size: int)
      requires kernel.Valid() && fd in kernel.table && opcode < 0x80 && HEADER_SIZE <= response.Length <= PACKET_MAX
      modifies kernel`table, kernel`errno, response
      ensures kernel.Valid() && kernel.table == old(kernel.table) - {fd}
      ensures var b := ListReply(opcode, d, cursor, response.Length, kernel.errno);
              size == |b| && size <= response.Length && response[..size] == b
    {
      hide StatusFromErrno, Fill, StatStop, EncodeAll, AllOf;
      var status, stop, out, next, count, records := FillPage(d, cursor, response);
      kernel.Close(fd);
      if status != FS_OK {
        if stop.Some? {
          status := StatusFromErrno(kernel.errno);
        }
        size := WriteError(opcode, status, response);
        return;
      }
      FinishPage(opcode, next, count, records, Directory, response, out);
      size := out;
    }

    /** Opens the file a path names. The parent is closed again in any case. */
    method OpenLeaf(path: seq<byte>, mode: OpenMode) returns (fd: int, status: byte)
      requires Ready() && Admitted(path, false)
      modifies kernel
      ensures Ready() && -1 <= fd
      ensures fd >= 0 ==>
                && fd !in old(kernel.table) && kernel.table == old(kernel.table)[fd := Components(path)]
                && kernel.changes == old(kernel.changes) + Opening(Components(path), mode, true)
      ensures fd < 0 ==>
                && kernel.table == old(kernel.table) && status == StatusFromErrno(kernel.failure.errno)
                && (kernel.failure.call.Dups? || kernel.failure.call.Opens?)
                && kernel.changes == old(kernel.changes) + Attempted(Components(path), mode, kernel.failure.call)
      ensures OnTheWay(old(kernel.touched), kernel.touched, path) && kernel.answers == old(kernel.answers)
    {
      hide StatusFromErrno, Components, Admitted, Opening;
      status := FS_OK;
      var parentFd, leaf := OpenParentDirectory(path);
      if parentFd < 0 {
        NothingAttempted(Components(path), mode, kernel.failure.call);
        assert kernel.changes + [] == kernel.changes;
        return -1, StatusFromErrno(kernel.errno);
      }
      ghost var parent := kernel.table[parentFd];
      OnTheWayStep(old(kernel.touched), kernel.touched, path, parent + [leaf]);
      fd := kernel.OpenAt(parentFd, leaf, mode);
      status := StatusFromErrno(kernel.errno);
      kernel.Close(parentFd);
      assert fd < 0 ==> kernel.table == old(kernel.table);
      assert fd >= 0 ==> kernel.table == old(kernel.table)[fd := Components(path)];
    }

    /** READ. `seen` is what fstat reported, `data` what pread returned. */
    method HandleRead(opcode: byte, request: seq<byte>, response: array<byte>)
      returns (size: int, ghost seen: Option<FileInfo>, ghost data: Option<seq<byte>>)
      requires Ready() && opcode < 0x80 && 2 <= response.Length
      modifies kernel, response
      ensures Ready() && kernel.table == old(kernel.table) && kernel.changes == old(kernel.changes)
      ensures match ReadRequest(request)
              case None =>
                size == 2 && Plain(response[..2], opcode, FS_BAD_REQUEST) && kernel.touched == old(kernel.touched)
              case Some(f) =>
                && OnTheWay(old(kernel.touched), kernel.touched, f.path)
                && if response.Length < READ_HEADER then size == -1
                   else if seen.None? then size == 2 && Reported(response[..2], opcode)
                   else if ReadRefusal(seen.value, f.offset).Some? then
                     && size == 2 && Plain(response[..2], opcode, ReadRefusal(seen.value, f.offset).value)
                     && kernel.answers == old(kernel.answers) + [Statted(Components(f.path), seen.value)]
                   else if data.None? then size == 2 && Reported(response[..2], opcode)
                   else
                     var wanted := PartSize(READ_HEADER, seen.value.size - f.offset, f.maximum, response.Length);
                     && |data.value| <= wanted
                     && kernel.answers == old(kernel.answers) + [Statted(Components(f.path), seen.value)]
                                          + [Gave(Components(f.path), f.offset, wanted, data.value)]
                     && size == READ_HEADER + |data.value|
                     && response[..size] == ReadBytes(opcode, f.offset, seen.value.size, data.value)
    {
      hide StatusFromErrno, Components, Admitted, ReadBytes, OnTheWay;
      seen, data := None, None;
      var field := ReadPathRequest(request, 6, false);
      if field.None? {
        size := WriteError(opcode, FS_BAD_REQUEST, response);
        return;
      }
      var f := ReadFields(ReadU32(request, 1), request[5], field.value);
      OnTheWayStart(kernel.touched, f.path);
      if response.Length < READ_HEADER {
        return -1, seen, data;
      }
      var fd, status := OpenLeaf(f.path, Reading);
      assert kernel.changes == old(kernel.changes) + [] == old(kernel.changes);
      if fd < 0 {
        size := WriteError(opcode, status, response);
        return;
      }
      var ok, info := kernel.FStat(fd);
      if !ok {
        status := StatusFromErrno(kernel.errno);
      } else {
        seen := Some(info);
        var refusal := ReadRefusal(info, f.offset);
        if refusal.Some? {
          ok, status := false, refusal.value;
        } else {
          var bytes;
          var wanted := PartSize(READ_HEADER, info.size - f.offset, f.maximum, response.Length);
          ok, bytes := kernel.PRead(fd, wanted, f.offset);
          if ok {
            data := Some(bytes);
            CopyInto(response, 0, ReadBytes(opcode, f.offset, info.size, bytes));
            size := READ_HEADER + |bytes|;
          } else {
            status := StatusFromErrno(kernel.errno);
          }
        }
      }
      kernel.Close(fd);
      assert kernel.table == old(kernel.table);
      if !ok {
        size := WriteError(opcode, status, response);
      }
    }

    /** WRITE. `seen` is what fstat reported, `count` what pwrite returned. Nothing but the named file is opened for
        writing, and it gets the request's bytes at the request's offset at most once. */
    method HandleWrite(opcode: byte, request: seq<byte>, response: array<byte>)
      returns (size: int, ghost seen: Option<FileInfo>, ghost count: Option<nat>)
      requires Ready() && opcode < 0x80 && 2 <= response.Length
      modifies kernel, response
      ensures Ready() && kernel.table == old(kernel.table)
      ensures if readOnly then
                && size == 2 && Plain(response[..2], opcode, FS_READ_ONLY)
                && kernel.touched == old(kernel.touched) && kernel.changes == old(kernel.changes)
              else match WriteRequest(request)
              case None =>
                && size == 2 && Plain(response[..2], opcode, FS_BAD_REQUEST)
                && kernel.touched == old(kernel.touched) && kernel.changes == old(kernel.changes)
              case Some(f) =>
                var mode := Writing(request[5] % 2 == 1, request[5] / 2 % 2 == 1);
                && OnTheWay(old(kernel.touched), kernel.touched, f.path)
                && if seen.None? then
                     && size == 2 && Reported(response[..2], opcode)
                     && kernel.changes == old(kernel.changes)
                                          + (if kernel.failure.call == Stats then
                                               Opening(Components(f.path), mode, true)
                                             else Attempted(Components(f.path), mode, kernel.failure.call))
                   else if !seen.value.kind.Regular? then
                     && size == 2 && Plain(response[..2], opcode, FS_ACCESS_DENIED)
                     && kernel.changes == old(kernel.changes) + Opening(Components(f.path), mode, true)
                     && kernel.answers == old(kernel.answers) + [Statted(Components(f.path), seen.value)]
                   else
                     && kernel.changes == old(kernel.changes) + Opening(Components(f.path), mode, true)
                                          + [Wrote(Components(f.path), f.offset, f.data, count.Some?)]
                     && if count.None? then size == 2 && Reported(response[..2], opcode)
                        else
                          && count.value <= |f.data|
                          && kernel.answers == old(kernel.answers) + [Statted(Components(f.path), seen.value)]
                                               + [Took(Components(f.path), count.value)]
                          && if response.Length < 7 then size == -1
                             else size == 7 && response[..7] == WriteBytes(opcode, f.offset, count.value)
    {
      hide StatusFromErrno, Components, Admitted, WriteBytes, OnTheWay, WriteFields.Mode, Opening;
      seen, count := None, None;
      if readOnly {
        size := WriteError(opcode, FS_READ_ONLY, response);
        return;
      }
      var fields := ReadWriteRequest(request);
      if fields.None? {
        size := WriteError(opcode, FS_BAD_REQUEST, response);
        return;
      }
      var f := fields.value;
      WriteMode(request, f);
      var ok, status, written;
      ok, status, written, seen := WriteLeaf(f);
      if !ok {
        size := WriteError(opcode, status, response);
        return;
      }
      count := Some(written);
      if response.Length < 7 {
        size := -1;
      } else {
        CopyInto(response, 0, WriteBytes(opcode, f.offset, written));
        size := 7;
      }
    }

    /** Opens the file, looks at it, writes the bytes and closes it again. `seen` is what fstat reported. */
    method WriteLeaf(f: WriteFields) returns (ok: bool, status: byte, written: nat, ghost seen: Option<FileInfo>)
      requires Ready() && Admitted(f.path, false)
      modifies kernel
      ensures Ready() && kernel.table == old(kernel.table) && OnTheWay(old(kernel.touched), kernel.touched, f.path)
      ensures ok ==> seen.Some? && seen.value.kind.Regular? && written <= |f.data|
      ensures !ok ==> status == if seen.Some? && !seen.value.kind.Regular? then FS_ACCESS_DENIED
                                else StatusFromErrno(kernel.failure.errno)
      ensures seen.None? ==>
                kernel.changes == old(kernel.changes)
                                  + (if kernel.failure.call == Stats then Opening(Components(f.path), f.Mode(), true)
                                     else Attempted(Components(f.path), f.Mode(), kernel.failure.call))
      ensures seen.Some? && !seen.value.kind.Regular? ==>
                && kernel.changes == old(kernel.changes) + Opening(Components(f.path), f.Mode(), true)
                && kernel.answers == old(kernel.answers) + [Statted(Components(f.path), seen.value)]
      ensures seen.Some? && seen.value.kind.Regular? ==>
                && kernel.changes == old(kernel.changes) + Opening(Components(f.path), f.Mode(), true)
                                     + [Wrote(Components(f.path), f.offset, f.data, ok)]
                && (ok ==> kernel.answers == old(kernel.answers) + [Statted(Components(f.path), seen.value)]
                                             + [Took(Components(f.path), written)])
    {
      hide StatusFromErrno, Components, Admitted, OnTheWay, WriteFields.Mode, Opening;
      NotRoot(f.path);
      seen, ok, written := None, false, 0;
      var fd;
      fd, status := OpenLeaf(f.path, f.Mode());
      if fd < 0 {
        return;
      }
      var info;
      ok, info := kernel.FStat(fd);
      if !ok {
        status := StatusFromErrno(kernel.errno);
      } else {
        seen := Some(info);
        if !info.kind.Regular? {
          ok, status := false, FS_ACCESS_DENIED;
        } else {
          ok, written := kernel.PWrite(fd, f.data, f.offset);
          status := StatusFromErrno(kernel.errno);
        }
      }
      kernel.Close(fd);
      assert kernel.table == old(kernel.table);
    }

    /** MKDIR and DELETE. `seen` is what the kernel said of the entry to delete, `done` that the modifying call was
        made and succeeded. */
    method HandleMkdirOrDelete(opcode: byte, request: seq<byte>, response: array<byte>)
      returns (size: int, ghost seen: Option<FileInfo>, ghost done: bool)
      requires Ready() && (opcode == OP_MKDIR || opcode == OP_DELETE) && 2 <= response.Length
      modifies kernel, response
      ensures Ready() && kernel.table == old(kernel.table) && size == 2
      ensures if readOnly then
                && Plain(response[..2], opcode, FS_READ_ONLY)
                && kernel.touched == old(kernel.touched) && kernel.changes == old(kernel.changes)
              else match PathField(request, 1, false)
              case None =>
                && Plain(response[..2], opcode, FS_BAD_REQUEST)
                && kernel.touched == old(kernel.touched) && kernel.changes == old(kernel.changes)
              case Some(path) =>
                && OnTheWay(old(kernel.touched), kernel.touched, path)
                && (seen.Some? ==> kernel.answers == old(kernel.answers) + [Statted(Components(path), seen.value)])
                && (if done then Plain(response[..2], opcode, FS_OK) else Reported(response[..2], opcode))
                && if !done && kernel.failure.call != Makes && kernel.failure.call != Removes then
                     kernel.changes == old(kernel.changes)
                   else if opcode == OP_MKDIR then
                     kernel.changes == old(kernel.changes) + [Made(Components(path), done)]
                   else
                     && seen.Some?
                     && kernel.changes == old(kernel.changes)
                                          + [Removed(Components(path), seen.value.kind == Folder, done)]
    {
      hide StatusFromErrno, Components, Admitted, OnTheWay;
      seen, done := None, false;
      if readOnly {
        size := WriteError(opcode, FS_READ_ONLY, response);
        return;
      }
      var field := ReadPathRequest(request, 1, false);
      if field.None? {
        size := WriteError(opcode, FS_BAD_REQUEST, response);
        return;
      }
      var path := field.value;
      var parentFd, leaf := OpenParentDirectory(path);
      if parentFd < 0 {
        size := WriteError(opcode, StatusFromErrno(kernel.errno), response);
        return;
      }
      var ok;
      ok, seen := MakeOrRemove(opcode, path, parentFd, leaf, old(kernel.touched));
      done := ok;
      var status := if ok then FS_OK else StatusFromErrno(kernel.errno);
      kernel.Close(parentFd);
      assert kernel.table == old(kernel.table);
      size := WriteError(opcode, status, response);
    }

    method MakeOrRemove(
        opcode: byte, ghost path: seq<byte>, parentFd: int, leaf: seq<byte>, ghost before: seq<Position>)
      returns (ok: bool, ghost seen: Option<FileInfo>)
      requires kernel.Valid() && parentFd in kernel.table && GoodName(leaf)
      requires opcode == OP_MKDIR || opcode == OP_DELETE
      requires kernel.table[parentFd] + [leaf] == Components(path) && OnTheWay(before, kernel.touched, path)
      modifies kernel`errno, kernel`failure, kernel`touched, kernel`changes, kernel`answers
      ensures kernel.Valid()
      ensures OnTheWay(before, kernel.touched, path) && (!ok ==> kernel.errno == kernel.failure.errno)
      ensures seen.Some? ==> kernel.answers == old(kernel.answers) + [Statted(Components(path), seen.value)]
      ensures if !ok && kernel.failure.call != Makes && kernel.failure.call != Removes then
                kernel.changes == old(kernel.changes)
              else if opcode == OP_MKDIR then kernel.changes == old(kernel.changes) + [Made(Components(path), ok)]
              else
                && seen.Some?
                && kernel.changes == old(kernel.changes) + [Removed(Components(path), seen.value.kind == Folder, ok)]
    {
      hide Components, OnTheWay;
      ghost var place := kernel.table[parentFd] + [leaf];
      seen := None;
      OnTheWayStep(before, kernel.touched, path, place);
      if opcode == OP_MKDIR {
        ok := kernel.MkdirAt(parentFd, leaf);
        return;
      }
      var info;
      ok, info := kernel.FStatAt(parentFd, leaf);
      if ok {
        seen := Some(info);
        OnTheWayStep(before, kernel.touched, path, place);
        ok := kernel.UnlinkAt(parentFd, leaf, info.kind.Folder?);
      }
    }

    /** RENAME: both parents are given back, and the one call that changes anything names both paths. `done` says that
        it was made and succeeded. */
    method HandleRename(opcode: byte, request: seq<byte>, response: array<byte>) returns (size: int, ghost done: bool)
      requires Ready() && opcode < 0x80 && 2 <= response.Length
      modifies kernel, response
      ensures Ready() && kernel.table == old(kernel.table) && size == 2
      ensures if readOnly then
                && Plain(response[..2], opcode, FS_READ_ONLY)
                && kernel.touched == old(kernel.touched) && kernel.changes == old(kernel.changes)
              else match RenameRequest(request)
              case None =>
                && Plain(response[..2], opcode, FS_BAD_REQUEST)
                && kernel.touched == old(kernel.touched) && kernel.changes == old(kernel.changes)
              case Some((from, to)) =>
                && OnEitherWay(old(kernel.touched), kernel.touched, from, to)
                && if done then
                     && Plain(response[..2], opcode, FS_OK)
                     && kernel.changes == old(kernel.changes) + [Renamed(Components(from), Components(to), true)]
                   else
                     && Reported(response[..2], opcode)
                     && kernel.changes == old(kernel.changes)
                                          + (if kernel.failure.call == Renames then
                                               [Renamed(Components(from), Components(to), false)]
                                             else [])
    {
      hide StatusFromErrno, Components, Admitted, OnTheWay, OnEitherWay;
      done := false;
      if readOnly {
        size := WriteError(opcode, FS_READ_ONLY, response);
        return;
      }
      var fields := ReadRenameRequest(request);
      if fields.None? {
        size := WriteError(opcode, FS_BAD_REQUEST, response);
        return;
      }
      var (from, to) := fields.value;
      var oldParent, oldLeaf := OpenParentDirectory(from);
      ghost var between := kernel.touched;
      EitherStart(between, from, to);
      EitherJoin(old(kernel.touched), between, between, from, to);
      assert kernel.changes + [] == kernel.changes;
      if oldParent < 0 {
        size := WriteError(opcode, StatusFromErrno(kernel.errno), response);
        return;
      }
      size, done := RenameFrom(opcode, oldParent, oldLeaf, from, to, response);
      EitherJoin(old(kernel.touched), between, kernel.touched, from, to);
      assert kernel.table == old(kernel.table);
    }

    /** The second half of RENAME, with the first parent open: it closes it on every branch. */
    method RenameFrom(
        opcode: byte, oldParent: int, oldLeaf: seq<byte>, ghost from: seq<byte>, to: seq<byte>, response: array<byte>)
      returns (size: int, ghost done: bool)
      requires Ready() && oldParent in kernel.table && oldParent != rootFd && GoodName(oldLeaf) && Admitted(to, false)
      requires kernel.table[oldParent] + [oldLeaf] == Components(from) && opcode < 0x80 && 2 <= response.Length
      modifies kernel, response
      ensures Ready() && kernel.table == old(kernel.table) - {oldParent} && size == 2
      ensures OnEitherWay(old(kernel.touched), kernel.touched, from, to)
      ensures if done then
                && Plain(response[..2], opcode, FS_OK)
                && kernel.changes == old(kernel.changes) + [Renamed(Components(from), Components(to), true)]
              else
                && Reported(response[..2], opcode)
                && kernel.changes == old(kernel.changes)
                                     + (if kernel.failure.call == Renames then
                                          [Renamed(Components(from), Components(to), false)]
                                        else [])
    {
      hide StatusFromErrno, Components, Admitted, OnTheWay, OnEitherWay;
      done := false;
      var newParent, newLeaf := OpenParentDirectory(to);
      EitherWay(old(kernel.touched), kernel.touched, from, to);
      if newParent < 0 {
        assert kernel.changes + [] == kernel.changes;
        var status := StatusFromErrno(kernel.errno);
        kernel.Close(oldParent);
        size := WriteError(opcode, status, response);
        return;
      }
      EitherStep(old(kernel.touched), kernel.touched, from, to, Components(from));
      EitherStep(old(kernel.touched), kernel.touched + [Components(from)], from, to, Components(to));
      var ok := kernel.RenameAt(oldParent, oldLeaf, newParent, newLeaf);
      done := ok;
      var status := if ok then FS_OK else StatusFromErrno(kernel.errno);
      kernel.Close(oldParent);
      kernel.Close(newParent);
      assert kernel.table == old(kernel.table) - {oldParent};
      size := WriteError(opcode, status, response);
    }

    /** CAPABILITIES. */
    method HandleCapabilities(opcode: byte, response: array<byte>) returns (size: int)
      requires opcode < 0x80 && 2 <= response.Length <= PACKET_MAX
      modifies response
      ensures response.Length < 9 ==> size == -1
      ensures response.Length >= 9 ==>
                && size == 9 && response[0] == opcode + RESPONSE_BIT && response[1] == FS_OK
                && response[2] == 1 && ReadU16(response[..], 3) == (if readOnly then 0x07 else 0x7F)
                && response[5] == FS_PATH_MAX && response[6] == HEADER_SIZE && response[7] == READ_HEADER
                && response[8] == if response.Length > READ_HEADER then response.Length - READ_HEADER else 0
    {
      if response.Length < 9 {
        return -1;
      }
      response[0], response[1], response[2] := opcode + RESPONSE_BIT, FS_OK, 1;
      response[3], response[4] := if readOnly then 0x07 else 0x7F, 0;
      response[5], response[6], response[7] := FS_PATH_MAX, HEADER_SIZE, READ_HEADER;
      response[8] := if response.Length > READ_HEADER then response.Length - READ_HEADER else 0;
      size := 9;
    }

    /** The requests that may change the exported tree. */
    method HandleChange(request: seq<byte>, response: array<byte>) returns (size: int)
      requires Ready() && 2 <= response.Length && request != [] && OP_WRITE <= request[0] <= OP_RENAME
      modifies kernel, response
      ensures Ready() && kernel.table == old(kernel.table) && -1 <= size <= response.Length
      ensures readOnly ==> kernel.changes == old(kernel.changes)
      ensures Below(old(kernel.touched), kernel.touched)
      ensures AllLicensed(request, old(kernel.changes), kernel.changes, kernel.answers)
      ensures size >= 0 ==> size >= 2 && response[0] == request[0] + RESPONSE_BIT
    {
      hide StatusFromErrno, Components, Admitted, OnTheWay, OnEitherWay, WriteBytes, PathField, WriteRequest,
           RenameRequest, Licensed, AllLicensed, Opening;
      var opcode := request[0];
      ghost var before, was := kernel.touched, kernel.changes;
      if opcode == OP_WRITE {
        ghost var seen, count;
        size, seen, count := HandleWrite(opcode, request, response);
        if !readOnly && WriteRequest(request).Some? {
          var f := WriteRequest(request).value;
          BelowWay(before, kernel.touched, f.path);
          WriteChanges(request, f, was, kernel.changes, seen, count, kernel.failure.call, kernel.answers);
        }
      } else if opcode == OP_MKDIR || opcode == OP_DELETE {
        ghost var seen, done;
        size, seen, done := HandleMkdirOrDelete(opcode, request, response);
        if !readOnly && PathField(request, 1, false).Some? {
          var path := PathField(request, 1, false).value;
          BelowWay(before, kernel.touched, path);
          if kernel.changes != was {
            MadeOrRemoved(request, was, kernel.changes, Components(path), seen, done, kernel.answers);
          }
        }
      } else {
        ghost var done;
        size, done := HandleRename(opcode, request, response);
        if !readOnly && RenameRequest(request).Some? {
          var paths := RenameRequest(request).value;
          BelowEither(before, kernel.touched, paths.0, paths.1);
          if kernel.changes != was {
            RenamedOne(request, was, kernel.changes, Components(paths.0), Components(paths.1), done, kernel.answers);
          }
        }
      }
      NoChange(request, was, kernel.answers);
    }

    /** handle_squid_fs_request: whatever the request and whatever the kernel answers, the same descriptors are open
        afterwards, the root itself is never named to the kernel, neither to look at nor to modify, and a read-only
        export is never changed. */
    method HandleRequest(request: seq<byte>, d: Listing, response: array<byte>) returns (size: int)
      requires Ready() && response.Length <= PACKET_MAX
      modifies kernel, response
      ensures Ready() && kernel.table == old(kernel.table) && -1 <= size <= response.Length
      ensures readOnly ==> kernel.changes == old(kernel.changes)
      ensures Below(old(kernel.touched), kernel.touched)
      ensures old(kernel.changes) <= kernel.changes
      ensures forall i | |old(kernel.changes)| <= i < |kernel.changes| :: BelowRoot(kernel.changes[i])
      ensures if request == [] then kernel.changes == old(kernel.changes)
              else AllLicensed(request, old(kernel.changes), kernel.changes, kernel.answers)
      ensures request == [] || response.Length < 2 ==> size == -1
      ensures size >= 0 ==> size >= 2 && request != [] && response[0] == request[0] % 0x80 + RESPONSE_BIT
      ensures size >= 0 && (request[0] > OP_RENAME || (request[0] == OP_CAPABILITIES && |request| != 1)) ==>
                size == 2 && response[1] == FS_BAD_REQUEST && kernel.touched == old(kernel.touched)
    {
      hide StatusFromErrno, Components, Admitted, OnTheWay, OnEitherWay, StatBytes, ReadBytes, WriteBytes, ListReply,
           PathField, ListRequest, ReadRequest, ReadRefusal, PartSize, Licensed;
      if request == [] {
        return -1;
      }
      NoChange(request, kernel.changes, kernel.answers);
      if response.Length < 2 {
        return -1;
      }
      var opcode := request[0];
      ghost var before, was := kernel.touched, kernel.changes;
      if opcode == OP_CAPABILITIES {
        if |request| != 1 {
          size := WriteError(opcode, FS_BAD_REQUEST, response);
        } else {
          size := HandleCapabilities(opcode, response);
        }
      } else if opcode == OP_STAT {
        ghost var seen;
        size, seen := HandleStat(opcode, request, response);
        if PathField(request, 1, true).Some? {
          BelowWay(before, kernel.touched, PathField(request, 1, true).value);
        }
      } else if opcode == OP_LIST {
        ghost var reached;
        size, reached := HandleList(opcode, request, d, response);
        AnswerShape(opcode, request, d, response.Length, kernel.errno);
        assert size >= 2 && response[..size][0] == response[0];
        if ListRequest(request).Some? && kernel.touched != before {
          BelowWay(before, kernel.touched, ListRequest(request).value.1);
        }
      } else if opcode == OP_READ {
        ghost var seen, data;
        size, seen, data := HandleRead(opcode, request, response);
        if ReadRequest(request).Some? {
          BelowWay(before, kernel.touched, ReadRequest(request).value.path);
        }
      } else if OP_WRITE <= opcode <= OP_RENAME {
        size := HandleChange(request, response);
      } else {
        size := WriteError(opcode % 0x80, FS_BAD_REQUEST, response);
      }
      NoChange(request, was, kernel.answers);
    }
  }

  /** As OnTheWay, for a request with two paths. */
  ghost predicate OnEitherWay(before: seq<Position>, after: seq<Position>, a: seq<byte>, b: seq<byte>)
  {
    && before <= after
    && forall i | |before| <= i < |after| :: after[i] != [] && (after[i] <= Components(a) || after[i] <= Components(b))
  }

  lemma EitherStart(before: seq<Position>, a: seq<byte>, b: seq<byte>)
    ensures OnEitherWay(before, before, a, b)
  {
  }

  lemma EitherWay(before: seq<Position>, after: seq<Position>, a: seq<byte>, b: seq<byte>)
    requires OnTheWay(before, after, b)
    ensures OnEitherWay(before, after, a, b)
  {
    hide Components;
  }

  lemma EitherStep(before: seq<Position>, mid: seq<Position>, a: seq<byte>, b: seq<byte>, place: Position)
    requires OnEitherWay(before, mid, a, b) && place != [] && (place <= Components(a) || place <= Components(b))
    ensures OnEitherWay(before, mid + [place], a, b)
  {
    hide Components;
  }

  lemma EitherJoin(before: seq<Position>, between: seq<Position>, after: seq<Position>, a: seq<byte>, b: seq<byte>)
    requires OnTheWay(before, between, a) && OnEitherWay(between, after, a, b)
    ensures OnEitherWay(before, after, a, b)
  {
    hide Components;
    forall i | |before| <= i < |after|
      ensures after[i] != [] && (after[i] <= Components(a) || after[i] <= Components(b))
    {
      if i < |between| {
        assert after[i] == between[i];
      }
    }
  }

  /** Nothing but strict descendants of the root was named since `before`. */
  ghost predicate Below(before: seq<Position>, after: seq<Position>)
  {
    before <= after && forall i | |before| <= i < |after| :: after[i] != []
  }

  lemma BelowWay(before: seq<Position>, after: seq<Position>, path: seq<byte>)
    requires OnTheWay(before, after, path)
    ensures Below(before, after)
  {
    hide Components;
  }

  lemma BelowEither(before: seq<Position>, after: seq<Position>, a: seq<byte>, b: seq<byte>)
    requires OnEitherWay(before, after, a, b)
    ensures Below(before, after)
  {
    hide Components;
  }

  lemma NothingAttempted(place: Position, mode: OpenMode, call: CallName)
    requires call == Dups || call == Opens(Reading)
    ensures Attempted(place, mode, call) == []
  {
  }

  lemma NotRoot(path: seq<byte>)
    requires Admitted(path, false)
    ensures Components(path) != []
  {
  }

  lemma AnswerShape(opcode: byte, request: seq<byte>, d: Listing, capacity: nat, left: Errno)
    requires opcode < 0x80
    ensures ListRequest(request).Some? && HEADER_SIZE <= capacity <= PACKET_MAX ==>
              var b := ListReply(opcode, d, ListRequest(request).value.0, capacity, left);
              |b| >= 2 && b[0] == opcode + RESPONSE_BIT
  {
    hide Fill, StatStop, ListRequest;
  }

  lemma AdmittedNonEmpty(path: seq<byte>)
    requires Admitted(path, true) && path != []
    ensures Admitted(path, false)
  {
  }

  lemma RootComponents()
    ensures Components([]) == []
  {
  }

  lemma OnTheWayStart(before: seq<Position>, path: seq<byte>)
    ensures OnTheWay(before, before, path)
  {
  }

  lemma NoMoreTokens(path: seq<byte>)
    ensures Tokens(path, |path|) == []
  {
  }

  lemma SameTokens(path: seq<byte>, at: nat)
    requires at < |path| && SkipSeparators(path, at) == |path|
    ensures Tokens(path, at) == Tokens(path, |path|)
  {
  }

  /** The token that strtok_r returns next is the next component. */
  lemma NextToken(path: seq<byte>, at: nat, done: Position, all: Position)
    requires at < |path| && SkipSeparators(path, at) < |path| && done + Tokens(path, at) == all && AllGood(all)
    ensures var start := SkipSeparators(path, at);
            var end := TokenEnd(path, start);
            var name := path[start..end];
            && GoodName(name) && done + [name] <= all
            && (done + [name]) + Tokens(path, if end < |path| then end + 1 else end) == all
  {
    hide GoodName;
    var start := SkipSeparators(path, at);
    var end := TokenEnd(path, start);
    var name := path[start..end];
    assert all[|done|] == Tokens(path, at)[0] == name;
    var rest := Tokens(path, if end < |path| then end + 1 else end);
    assert Tokens(path, at) == [name] + rest;
    assert (done + [name]) + rest == done + ([name] + rest);
  }

  lemma OnTheWayStep(before: seq<Position>, mid: seq<Position>, path: seq<byte>, place: Position)
    requires OnTheWay(before, mid, path) && place != [] && place <= Components(path)
    ensures OnTheWay(before, mid + [place], path)
  {
    hide Components;
  }
}
