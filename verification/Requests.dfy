/** Request packets: what the client calls build, what the servers decode, and why those agree. */
module Requests {
  import opened Bytes
  import opened Records
  import opened FsPath
  import opened Filesystem

  const RETRO_LIST: byte := 1
  const RETRO_SEARCH: byte := 2
  const RETRO_INFO: byte := 3
  const RETRO_DOWNLOAD: byte := 4

  type Text = t: seq<byte> | |t| <= 255

  /** A counted string. */
  function Counted(t: Text): seq<byte> { [|t|] + t }

  /** An optional trailing string: the empty one is left out. */
  function Trailing(t: Text): seq<byte> { if t == [] then [] else Counted(t) }

  datatype ListFields = ListFields(cursor: u16, platform: Text, query: Text, model: Text)

  datatype DownloadFields = DownloadFields(offset: u32, maximum: byte, packageId: Text, downloadId: Text)

  function ListPayload(f: ListFields): seq<byte>
  {
    ([RETRO_LIST] + WriteU16(f.cursor)) + Counted(f.platform) + Trailing(f.model)
  }

  function SearchPayload(f: ListFields): seq<byte>
  {
    ([RETRO_SEARCH] + WriteU16(f.cursor)) + Counted(f.platform) + (Counted(f.query) + Trailing(f.model))
  }

  function InfoPayload(cursor: u16, id: Text): seq<byte> { ([RETRO_INFO] + WriteU16(cursor)) + Counted(id) + [] }

  function DownloadPayload(f: DownloadFields): seq<byte>
  {
    ([RETRO_DOWNLOAD] + WriteU32(f.offset) + [f.maximum]) + Counted(f.packageId) + Counted(f.downloadId)
  }

  function PathPayload(opcode: byte, path: Text): seq<byte> { [opcode] + Counted(path) + [] }

  function FsListPayload(cursor: u16, path: Text): seq<byte> { ([OP_LIST] + WriteU16(cursor)) + Counted(path) + [] }

  function FsReadPayload(offset: u32, maximum: byte, path: Text): seq<byte>
  {
    ([OP_READ] + WriteU32(offset) + [maximum]) + Counted(path) + []
  }

  function FsWritePayload(offset: u32, flags: byte, path: Text, data: Text): seq<byte>
  {
    ([OP_WRITE] + WriteU32(offset) + [flags]) + Counted(path) + Counted(data)
  }

  function RenamePayload(from: Text, to: Text): seq<byte> { [OP_RENAME] + Counted(from) + Counted(to) }

  // ----- the Retro Vault decoders ---------------------------------------------------------------------------------

  /** The model at the end of a LIST or SEARCH request: what is left, if anything is, is one counted string. */
  function ModelField(request: seq<byte>, at: nat): (r: Option<Text>)
    requires at <= |request|
  {
    if at == |request| then Some([])
    else if request[at] != |request| - at - 1 then None
    else Some(request[at + 1..])
  }

  /** The decoding part of handle_list_or_search. */
  function ListOrSearch(request: seq<byte>): (r: Option<ListFields>)
    requires request != []
  {
    if |request| < 4 then None
    else
      var cursor := ReadU16(request, 1);
      var platformSize: nat := request[3];
      if cursor == CURSOR_END || platformSize > |request| - 4 then None
      else
        var platform: Text, at := request[4..4 + platformSize], 4 + platformSize;
        if request[0] != RETRO_SEARCH then
          match ModelField(request, at)
          case None => None
          case Some(model) => Some(ListFields(cursor, platform, [], model))
        else if at >= |request| then None
        else
          var querySize: nat := request[at];
          if querySize == 0 || querySize > |request| - at - 1 then None
          else
            match ModelField(request, at + 1 + querySize)
            case None => None
            case Some(model) => Some(ListFields(cursor, platform, request[at + 1..at + 1 + querySize], model))
  }

  /** The decoding part of handle_info. */
  function InfoRequest(request: seq<byte>): (r: Option<(u16, Text)>)
  {
    if |request| < 4 || request[3] == 0 || request[3] != |request| - 4 then None
    else Some((ReadU16(request, 1), request[4..]))
  }

  /** The decoding part of handle_download. */
  function DownloadRequest(request: seq<byte>): (r: Option<DownloadFields>)
  {
    if |request| < 8 then None
    else
      var packageSize: nat := request[6];
      if packageSize == 0 || packageSize > |request| - 7 then None
      else
        var at := 7 + packageSize;
        if at >= |request| || request[at] == 0 || request[at] != |request| - at - 1 then None
        else Some(DownloadFields(ReadU32(request, 1), request[5], request[7..at], request[at + 1..]))
  }

  // ----- codecs agree ---------------------------------------------------------------------------------------------

  /** A counted string stands at `at`. */
  predicate CountedAt(r: seq<byte>, at: nat, t: Text)
  {
    at + 1 + |t| <= |r| && r[at] == |t| && r[at + 1..at + 1 + |t|] == t
  }

  lemma CountedFits(r: seq<byte>, at: nat, t: Text)
    ensures CountedAt(r, at, t) ==> at + 1 + |t| <= |r|
  {
  }

  /** The pieces of a packet: a head, a counted string and a rest. */
  lemma Pieces(r: seq<byte>, head: seq<byte>, t: Text, rest: seq<byte>)
    ensures r == head + Counted(t) + rest
            <==> |head| <= |r| && r[..|head|] == head && CountedAt(r, |head|, t) && r[|head| + 1 + |t|..] == rest
  {
    var h, whole := |head|, head + Counted(t) + rest;
    if r == whole {
      assert whole[..h] == head;
      assert whole[h..] == Counted(t) + rest;
      assert whole[h] == Counted(t)[0] == |t|;
      assert whole[h + 1..h + 1 + |t|] == t;
      assert whole[h + 1 + |t|..] == rest;
    }
    if h <= |r| && r[..h] == head && CountedAt(r, h, t) && r[h + 1 + |t|..] == rest {
      assert r == r[..h] + ([r[h]] + r[h + 1..h + 1 + |t|]) + r[h + 1 + |t|..];
    }
  }

  /** A counted string that fills the rest. */
  lemma LastPiece(r: seq<byte>, at: nat, t: Text)
    requires at <= |r|
    ensures r[at..] == Counted(t) <==> CountedAt(r, at, t) && |r| == at + 1 + |t|
  {
    if r[at..] == Counted(t) {
      assert |r| - at == 1 + |t|;
      assert r[at] == r[at..][0] == Counted(t)[0];
      assert r[at + 1..at + 1 + |t|] == r[at..][1..] == Counted(t)[1..];
    }
    if CountedAt(r, at, t) && |r| == at + 1 + |t| {
      assert r[at..] == [r[at]] + r[at + 1..at + 1 + |t|];
    }
  }

  lemma Head16(r: seq<byte>, opcode: byte, v: u16)
    requires |r| >= 3 && r[0] == opcode
    ensures r[..3] == [opcode] + WriteU16(v) <==> ReadU16(r, 1) == v
  {
    var w := [opcode] + WriteU16(v);
    if r[..3] == w {
      assert r[1] == r[..3][1] == w[1] && r[2] == r[..3][2] == w[2];
    }
    if ReadU16(r, 1) == v {
      assert r[..3] == [r[0], r[1], r[2]];
    }
  }

  lemma Head32(r: seq<byte>, opcode: byte, v: u32, last: byte)
    requires |r| >= 6 && r[0] == opcode
    ensures r[..6] == [opcode] + WriteU32(v) + [last] <==> ReadU32(r, 1) == v && r[5] == last
  {
    hide ReadU32, WriteU32;
    var w := [opcode] + WriteU32(v) + [last];
    if r[..6] == w {
      assert r[1..5] == r[..6][1..5] == w[1..5] == WriteU32(v);
      U32RoundTrip(r, 1, v);
      assert r[5] == r[..6][5] == w[5];
    }
    if ReadU32(r, 1) == v && r[5] == last {
      U32Rewrite(r, 1);
      assert r[..6] == [r[0]] + r[1..5] + [r[5]];
    }
  }

  /** The model field is the trailing string, or an explicit empty one. */
  lemma ModelExactly(r: seq<byte>, at: nat, model: Text)
    requires at <= |r|
    ensures ModelField(r, at) == Some(model)
            <==> r[at..] == Trailing(model) || (model == [] && r[at..] == Counted([]))
  {
    LastPiece(r, at, model);
    LastPiece(r, at, []);
    if at < |r| {
      assert |r[at..]| > 0;
      if ModelField(r, at) == Some(model) {
        assert r[at + 1..at + 1 + |model|] == r[at + 1..];
      }
      if CountedAt(r, at, model) && |r| == at + 1 + |model| {
        assert r[at + 1..at + 1 + |model|] == r[at + 1..];
      }
    }
  }

  /** LIST: the server decodes `f` from exactly the packets a client can build for it, and from those with the empty
      model spelled out. It rejects the end marker as a cursor. */
  lemma ListExactly(r: seq<byte>, f: ListFields)
    requires r != [] && r[0] == RETRO_LIST
    ensures ListOrSearch(r) == Some(f)
            <==> f.cursor != CURSOR_END && f.query == []
                 && (r == ListPayload(f) || (f.model == [] && r == ListPayload(f) + Counted([])))
  {
    hide ReadU16, WriteU16, Trailing, ModelField;
    var head, at := [RETRO_LIST] + WriteU16(f.cursor), 4 + |f.platform|;
    Pieces(r, head, f.platform, Trailing(f.model));
    Pieces(r, head, f.platform, Counted([]));
    NoTrailing(head + Counted(f.platform));
    if |r| >= 3 {
      Head16(r, RETRO_LIST, f.cursor);
    }
    if at <= |r| {
      ModelExactly(r, at, f.model);
    }
  }

  lemma NoTrailing(a: seq<byte>)
    ensures a + Trailing([]) + Counted([]) == a + Counted([])
  {
  }

  /** What the decoder of SEARCH looks at. */
  lemma SearchForm(r: seq<byte>, f: ListFields)
    requires r != [] && r[0] == RETRO_SEARCH
    ensures var at := 5 + |f.platform| + |f.query|;
            ListOrSearch(r) == Some(f)
            <==> && |r| >= 3 && ReadU16(r, 1) == f.cursor && f.cursor != CURSOR_END
                 && CountedAt(r, 3, f.platform) && CountedAt(r, 4 + |f.platform|, f.query) && f.query != []
                 && at <= |r| && ModelField(r, at) == Some(f.model)
  {
    hide ReadU16, ModelField;
  }

  lemma SearchWhole(f: ListFields)
    ensures var known := ([RETRO_SEARCH] + WriteU16(f.cursor)) + Counted(f.platform) + Counted(f.query);
            && SearchPayload(f) == known + Trailing(f.model)
            && (f.model == [] ==> SearchPayload(f) + Counted([]) == known + Counted([]))
  {
    var known := ([RETRO_SEARCH] + WriteU16(f.cursor)) + Counted(f.platform) + Counted(f.query);
    assert SearchPayload(f) == known + Trailing(f.model);
    NoTrailing(known);
  }

  lemma SearchExactly(r: seq<byte>, f: ListFields)
    requires r != [] && r[0] == RETRO_SEARCH
    ensures ListOrSearch(r) == Some(f)
            <==> f.cursor != CURSOR_END && f.query != []
                 && (r == SearchPayload(f) || (f.model == [] && r == SearchPayload(f) + Counted([])))
  {
    hide ReadU16, WriteU16, Trailing, ModelField, ListOrSearch, CountedAt;
    var head, at := [RETRO_SEARCH] + WriteU16(f.cursor), 5 + |f.platform| + |f.query|;
    SearchForm(r, f);
    SearchPieces(r, head, f, Trailing(f.model));
    SearchPieces(r, head, f, Counted([]));
    SearchWhole(f);
    if |r| >= 3 {
      Head16(r, RETRO_SEARCH, f.cursor);
    }
    if at <= |r| {
      ModelExactly(r, at, f.model);
    }
    CountedFits(r, 3, f.platform);
    CountedFits(r, 4 + |f.platform|, f.query);
  }

  lemma SearchPieces(r: seq<byte>, head: seq<byte>, f: ListFields, rest: seq<byte>)
    requires |head| == 3
    ensures var at := 4 + |f.platform|;
            r == head + Counted(f.platform) + Counted(f.query) + rest
            <==> |r| >= 3 && r[..3] == head && CountedAt(r, 3, f.platform) && CountedAt(r, at, f.query)
                 && r[at + 1 + |f.query|..] == rest
  {
    var first := head + Counted(f.platform);
    Pieces(r, first, f.query, rest);
    if |first| <= |r| {
      Pieces(r[..|first|], head, f.platform, []);
      assert head + Counted(f.platform) + [] == first;
      assert r[..|first|][..3] == r[..3];
      if CountedAt(r, 3, f.platform) {
        assert r[..|first|][4..|first|] == r[4..|first|];
      }
    }
  }

  lemma InfoExactly(r: seq<byte>, cursor: u16, id: Text)
    requires r != [] && r[0] == RETRO_INFO
    ensures InfoRequest(r) == Some((cursor, id)) <==> id != [] && r == InfoPayload(cursor, id)
  {
    hide ReadU16, WriteU16;
    Pieces(r, [RETRO_INFO] + WriteU16(cursor), id, []);
    if |r| >= 4 {
      Head16(r, RETRO_INFO, cursor);
      assert r[4..|r|] == r[4..];
    }
  }

  /** What the decoder of DOWNLOAD looks at. */
  lemma DownloadForm(r: seq<byte>, f: DownloadFields)
    ensures DownloadRequest(r) == Some(f)
            <==> && |r| >= 6 && ReadU32(r, 1) == f.offset && r[5] == f.maximum
                 && CountedAt(r, 6, f.packageId) && f.packageId != []
                 && CountedAt(r, 7 + |f.packageId|, f.downloadId) && f.downloadId != []
                 && |r| == 8 + |f.packageId| + |f.downloadId|
  {
    hide ReadU32;
    var at := 7 + |f.packageId|;
    if at < |r| {
      assert r[at + 1..|r|] == r[at + 1..];
    }
  }

  lemma DownloadExactly(r: seq<byte>, f: DownloadFields)
    requires r != [] && r[0] == RETRO_DOWNLOAD
    ensures DownloadRequest(r) == Some(f) <==> f.packageId != [] && f.downloadId != [] && r == DownloadPayload(f)
  {
    hide ReadU32, WriteU32, DownloadRequest, CountedAt;
    DownloadForm(r, f);
    Pieces(r, [RETRO_DOWNLOAD] + WriteU32(f.offset) + [f.maximum], f.packageId, Counted(f.downloadId));
    if |r| >= 6 {
      Head32(r, RETRO_DOWNLOAD, f.offset, f.maximum);
    }
    if 7 + |f.packageId| <= |r| {
      LastPiece(r, 7 + |f.packageId|, f.downloadId);
    }
    CountedFits(r, 6, f.packageId);
  }

  /** The one-path requests: STAT, MKDIR and DELETE. */
  lemma PathExactly(r: seq<byte>, allowEmpty: bool, path: Text)
    requires r != []
    ensures PathField(r, 1, allowEmpty) == Some(path) <==> Admitted(path, allowEmpty) && r == PathPayload(r[0], path)
  {
    hide Admitted;
    FieldExactly(r, [r[0]], allowEmpty, path);
    assert r[..1] == [r[0]];
  }

  /** A path field behind any head. */
  lemma FieldExactly(r: seq<byte>, head: seq<byte>, allowEmpty: bool, path: Text)
    ensures (|head| <= |r| && r[..|head|] == head && PathField(r, |head|, allowEmpty) == Some(path))
            <==> Admitted(path, allowEmpty) && r == head + Counted(path) + []
  {
    hide Admitted;
    var h := |head|;
    Pieces(r, head, path, []);
    if h < |r| {
      assert r[h + 1..|r|] == r[h + 1..];
    }
  }

  lemma FsListExactly(r: seq<byte>, cursor: u16, path: Text)
    requires r != [] && r[0] == OP_LIST
    ensures ListRequest(r) == Some((cursor, path)) <==> Admitted(path, true) && r == FsListPayload(cursor, path)
  {
    hide ReadU16, WriteU16, Admitted, PathField;
    FieldExactly(r, [OP_LIST] + WriteU16(cursor), true, path);
    if |r| >= 3 {
      Head16(r, OP_LIST, cursor);
    }
  }

  lemma FsReadExactly(r: seq<byte>, f: ReadFields)
    requires r != [] && r[0] == OP_READ && |f.path| <= 255
    ensures ReadRequest(r) == Some(f) <==> Admitted(f.path, false) && r == FsReadPayload(f.offset, f.maximum, f.path)
  {
    hide ReadU32, WriteU32, Admitted, PathField;
    FieldExactly(r, [OP_READ] + WriteU32(f.offset) + [f.maximum], false, f.path);
    if |r| >= 6 {
      Head32(r, OP_READ, f.offset, f.maximum);
    }
  }

  /** What the decoder of WRITE looks at. */
  lemma WriteForm(r: seq<byte>, f: WriteFields)
    requires |f.path| <= 255 && |f.data| <= 255
    ensures WriteRequest(r) == Some(f)
            <==> && |r| >= 6 && ReadU32(r, 1) == f.offset && r[5] == f.flags && f.flags < 4
                 && CountedAt(r, 6, f.path) && Admitted(f.path, false)
                 && CountedAt(r, 7 + |f.path|, f.data) && |r| == 8 + |f.path| + |f.data|
  {
    hide ReadU32, Admitted;
    var at := 7 + |f.path|;
    if at < |r| {
      assert r[at + 1..|r|] == r[at + 1..];
    }
  }

  lemma FsWriteExactly(r: seq<byte>, f: WriteFields)
    requires r != [] && r[0] == OP_WRITE && |f.path| <= 255 && |f.data| <= 255
    ensures WriteRequest(r) == Some(f)
            <==> Admitted(f.path, false) && f.flags < 4 && r == FsWritePayload(f.offset, f.flags, f.path, f.data)
  {
    hide ReadU32, WriteU32, Admitted, WriteRequest, CountedAt;
    WriteForm(r, f);
    Pieces(r, [OP_WRITE] + WriteU32(f.offset) + [f.flags], f.path, Counted(f.data));
    if |r| >= 6 {
      Head32(r, OP_WRITE, f.offset, f.flags);
    }
    if 7 + |f.path| <= |r| {
      LastPiece(r, 7 + |f.path|, f.data);
    }
    CountedFits(r, 6, f.path);
  }

  lemma NotEmpty(path: seq<byte>)
    ensures Admitted(path, false) ==> path != []
  {
  }

  /** What the decoder of RENAME looks at. */
  lemma RenameForm(r: seq<byte>, from: Text, to: Text)
    ensures RenameRequest(r) == Some((from, to))
            <==> && CountedAt(r, 1, from) && Admitted(from, false)
                 && CountedAt(r, 2 + |from|, to) && Admitted(to, false) && |r| == 3 + |from| + |to|
  {
    NotEmpty(from);
    NotEmpty(to);
    hide Admitted;
    var at := 2 + |from|;
    if at < |r| {
      assert r[at + 1..|r|] == r[at + 1..];
    }
  }

  lemma RenameExactly(r: seq<byte>, from: Text, to: Text)
    requires r != [] && r[0] == OP_RENAME
    ensures RenameRequest(r) == Some((from, to))
            <==> Admitted(from, false) && Admitted(to, false) && r == RenamePayload(from, to)
  {
    hide Admitted, RenameRequest, CountedAt;
    RenameForm(r, from, to);
    Pieces(r, [OP_RENAME], from, Counted(to));
    assert r[..1] == [OP_RENAME];
    if 2 + |from| <= |r| {
      LastPiece(r, 2 + |from|, to);
    }
    CountedFits(r, 1, from);
  }
}
