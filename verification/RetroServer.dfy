/** The Retro Vault plugin from request packet to reply packet, and the client that talks to it. */
module RetroServer {
  import opened Bytes
  import opened Records
  import opened Catalog
  import ListPages
  import InfoPages
  import InfoWriter
  import opened CatalogParse
  import opened RetroContext
  import opened Requests

  /** What the clock and the HTTP server do while one request is handled. */
  datatype Env = Env(now: int, http: Option<Fetch>, first: Fetch, second: Fetch)

  datatype Packet = Packet(request: seq<byte>, env: Env)

  predicate Small(c: State) { |c.packages| <= CATALOG_MAX }

  function Fault(opcode: byte, status: byte): seq<byte> { [opcode % 0x80 + RESPONSE_BIT, status] }

  /** handle_list_or_search; None stands for -1. */
  function ListReply(c: State, request: seq<byte>, env: Env, capacity: nat): (State, Option<seq<byte>>)
    requires Small(c) && request != [] && 2 <= capacity <= PACKET_MAX
  {
    match ListOrSearch(request)
    case None => (c, Some(Fault(request[0], STATUS_BAD_REQUEST)))
    case Some(f) =>
      var (d, status) := EnsureCatalog(c, env.now, env.http);
      if status != STATUS_OK then (d, Some(Fault(request[0], status)))
      else if capacity < HEADER_SIZE then (d, None)
      else
        var ms := Select(d.packages, Filter(f.platform, f.model, f.query));
        (d, Some(ListPages.Answer(request[0] % 0x80, ms, f.cursor, capacity)))
  }

  /** handle_info. */
  function InfoReply(c: State, request: seq<byte>, env: Env, capacity: nat): (State, seq<byte>)
    requires request != [] && 2 <= capacity <= PACKET_MAX
  {
    match InfoRequest(request)
    case None => (c, Fault(request[0], STATUS_BAD_REQUEST))
    case Some((cursor, id)) =>
      var (d, status) := EnsureCatalog(c, env.now, env.http);
      if status != STATUS_OK then (d, Fault(request[0], status))
      else
        match FindPackage(d.packages, id)
        case None => (d, Fault(request[0], STATUS_NOT_FOUND))
        case Some(p) => (d, InfoPages.InfoAnswer(request[0] % 0x80, p, cursor, capacity))
  }

  function Wanted(f: DownloadFields, env: Env): (r: Request)
    ensures r.NeedDownload?
  {
    NeedDownload(env.now, env.http, f.packageId, f.downloadId, env.first, env.second)
  }

  /** handle_download. */
  function DownloadReply(c: State, request: seq<byte>, env: Env, capacity: nat): (State, seq<byte>)
    requires request != [] && 2 <= capacity <= PACKET_MAX
  {
    var fields := DownloadRequest(request);
    if fields.None? || capacity < DOWNLOAD_HEADER then (c, Fault(request[0], STATUS_BAD_REQUEST))
    else
      var (d, status) := EnsureDownload(c, Wanted(fields.value, env));
      if status != STATUS_OK then (d, Fault(request[0], status))
      else (d, ChunkAnswer(request[0] % 0x80, d.data, fields.value.offset, fields.value.maximum, capacity))
  }

  function Capabilities(capacity: nat): Option<seq<byte>>
    requires capacity <= PACKET_MAX
  {
    if capacity < 7 then None
    else Some([RESPONSE_BIT, STATUS_OK, 1, 0x0F, HEADER_SIZE, DOWNLOAD_HEADER,
               if capacity > DOWNLOAD_HEADER then capacity - DOWNLOAD_HEADER else 0])
  }

  /** handle_retro_vault_request. */
  function Reply(c: State, p: Packet, capacity: nat): (State, Option<seq<byte>>)
    requires Small(c) && capacity <= PACKET_MAX
  {
    if p.request == [] || capacity < 2 then (c, None)
    else
      var opcode := p.request[0];
      if opcode == 0 then
        (c, if |p.request| != 1 then Some(Fault(opcode, STATUS_BAD_REQUEST)) else Capabilities(capacity))
      else if opcode == RETRO_LIST || opcode == RETRO_SEARCH then ListReply(c, p.request, p.env, capacity)
      else if opcode == RETRO_INFO then
        var (d, b) := InfoReply(c, p.request, p.env, capacity);
        (d, Some(b))
      else if opcode == RETRO_DOWNLOAD then
        var (d, b) := DownloadReply(c, p.request, p.env, capacity);
        (d, Some(b))
      else (c, Some(Fault(opcode, STATUS_BAD_REQUEST)))
  }

  // ----- runs -----------------------------------------------------------------------------------------------------

  /** What a packet makes the plugin fetch, if anything. */
  function Need(p: Packet, capacity: nat): Option<Request>
  {
    if p.request == [] || capacity < 2 then None
    else
      var opcode := p.request[0];
      if (opcode == RETRO_LIST || opcode == RETRO_SEARCH) && ListOrSearch(p.request).Some? then
        Some(NeedCatalog(p.env.now, p.env.http))
      else if opcode == RETRO_INFO && InfoRequest(p.request).Some? then Some(NeedCatalog(p.env.now, p.env.http))
      else if opcode == RETRO_DOWNLOAD && DownloadRequest(p.request).Some? && capacity >= DOWNLOAD_HEADER then
        Some(Wanted(DownloadRequest(p.request).value, p.env))
      else None
  }

  function Needs(ps: seq<Packet>, capacity: nat): seq<Request>
  {
    if ps == [] then []
    else
      var n := |ps| - 1;
      match Need(ps[n], capacity)
      case None => Needs(ps[..n], capacity)
      case Some(r) => Needs(ps[..n], capacity) + [r]
  }

  lemma ReplyState(c: State, p: Packet, capacity: nat)
    requires Small(c) && capacity <= PACKET_MAX
    ensures var d := Reply(c, p, capacity).0;
            Small(d) && match Need(p, capacity) case None => d == c case Some(r) => d == Handle(c, r).0
  {
    hide ListOrSearch, InfoRequest, DownloadRequest, ListPages.Answer, InfoPages.InfoAnswer, ChunkAnswer, ParseCatalog,
         Resolve, Deciding, Select;
  }

  /** The state after serving the packets in order. */
  function Served(ps: seq<Packet>, capacity: nat): (c: State)
    requires capacity <= PACKET_MAX
    ensures Small(c)
  {
    if ps == [] then Initial
    else
      var before := Served(ps[..|ps| - 1], capacity);
      ReplyState(before, ps[|ps| - 1], capacity);
      Reply(before, ps[|ps| - 1], capacity).0
  }

  /** Serving any packets moves the caches exactly as the fetches those packets ask for, so what holds of every run
      of fetches holds of every run of the plugin. */
  lemma {:induction false} ServedIsRun(ps: seq<Packet>, capacity: nat)
    requires capacity <= PACKET_MAX
    ensures Served(ps, capacity) == Run(Needs(ps, capacity))
  {
    if ps != [] {
      var n := |ps| - 1;
      ServedIsRun(ps[..n], capacity);
      ReplyState(Served(ps[..n], capacity), ps[n], capacity);
      hide Reply, Need, Handle, Small;
      var need := Need(ps[n], capacity);
      if need.Some? {
        RunAppend(Needs(ps[..n], capacity), need.value);
      }
    }
  }

  // ----- a client session -----------------------------------------------------------------------------------------

  /** The request a client sends to continue a LIST (no query) or SEARCH at `cursor`. */
  function Asked(f: ListFields, cursor: u16): (b: seq<byte>)
    ensures b != [] && b[0] == if f.query == [] then RETRO_LIST else RETRO_SEARCH
  {
    var g := f.(cursor := cursor);
    if f.query == [] then ListPayload(g) else SearchPayload(g)
  }

  /** A client that sends such requests from `cursor` on, iterates the replies and follows their cursors. */
  function Session(c: State, f: ListFields, envs: nat -> Env, cursor: u16): Option<seq<Record>>
    requires Small(c)
    decreases CURSOR_END - cursor
  {
    var p := Packet(Asked(f, cursor), envs(cursor));
    var (d, reply) := Reply(c, p, PACKET_MAX);
    match reply
    case None => None
    case Some(b) =>
      if |b| < HEADER_SIZE || b[1] != STATUS_OK then None
      else
        var here, next := ReadAll(Entries, b, HEADER_SIZE, |b|, b[4]), ReadU16(b, 2);
        if here.None? then None
        else if next == CURSOR_END then here
        else if !(cursor < next) then None
        else
          ReplyState(c, p, PACKET_MAX);
          var more := Session(d, f, envs, next);
          if more.None? then None else Some(here.value + more.value)
  }

  /** The catalogue is fresh throughout. */
  ghost predicate Lasting(c: State, envs: nat -> Env) { forall k: nat :: Fresh(c, envs(k).now) }

  /** Whatever usable response arrives has the property. */
  ghost predicate Brings(http: Option<Fetch>, holds: seq<Package> -> bool)
  {
    http.Some? && (Usable(http) ==> holds(ParseCatalog(http.value.body).value))
  }

  /** The catalogue has the property and keeps it while the client is at it, and every look at it succeeds. Either it is
      fresh throughout; or it may be fetched anew for any packet and every response keeps the property, where fetches
      may fail as long as there is an old catalogue to fall back on. */
  ghost predicate Kept(c: State, envs: nat -> Env, holds: seq<Package> -> bool)
  {
    && holds(c.packages)
    && (|| Lasting(c, envs)
        || ((forall k: nat :: Brings(envs(k).http, holds))
            && ((forall k: nat :: Usable(envs(k).http))
                || (c.packages != [] && forall k: nat :: Brings(envs(k).http, ps => ps != [])))))
  }

  lemma LastingStays(c: State, envs: nat -> Env, d: State)
    requires Lasting(c, envs) && d.packages == c.packages && d.fetchedAt == c.fetchedAt && d.seconds == c.seconds
    ensures Lasting(d, envs)
  {
    forall k: nat
      ensures Fresh(d, envs(k).now)
    {
      assert Fresh(c, envs(k).now);
    }
  }

  /** One look at the catalogue under these conditions. */
  lemma KeptLook(c: State, envs: nat -> Env, holds: seq<Package> -> bool, k: nat)
    requires Small(c) && Kept(c, envs, holds)
    ensures var (d, status) := EnsureCatalog(c, envs(k).now, envs(k).http);
            && status == STATUS_OK && Small(d) && Kept(d, envs, holds)
            && d.path == c.path && d.data == c.data && (Lasting(c, envs) ==> d == c)
  {
    hide ParseCatalog;
    if Lasting(c, envs) {
      assert Fresh(c, envs(k).now);
    } else {
      assert Brings(envs(k).http, holds);
      if forall j: nat :: Usable(envs(j).http) {
        assert Usable(envs(k).http);
      } else {
        assert Brings(envs(k).http, ps => ps != []);
      }
    }
  }

  function FilterOf(f: ListFields): Filter { Filter(f.platform, f.model, f.query) }

  function OpcodeOf(f: ListFields): byte { if f.query == [] then RETRO_LIST else RETRO_SEARCH }

  /** The packages that match the request are `ms`, before and after every refresh. */
  ghost predicate Matching(c: State, f: ListFields, ms: seq<Package>, envs: nat -> Env)
  {
    Kept(c, envs, ps => Select(ps, FilterOf(f)) == ms)
  }

  /** One request packet under these conditions. */
  lemma MatchingReply(c: State, f: ListFields, ms: seq<Package>, envs: nat -> Env, cursor: u16)
    requires Small(c) && Matching(c, f, ms, envs) && cursor != CURSOR_END
    ensures |ms| <= CATALOG_MAX
    ensures var (d, reply) := Reply(c, Packet(Asked(f, cursor), envs(cursor)), PACKET_MAX);
            && Small(d) && Matching(d, f, ms, envs) && (Lasting(c, envs) ==> d == c)
            && reply == Some(ListPages.Answer(OpcodeOf(f), ms, cursor, PACKET_MAX))
  {
    KeptLook(c, envs, ps => Select(ps, FilterOf(f)) == ms, cursor);
    var g, r := f.(cursor := cursor), Asked(f, cursor);
    if f.query == [] {
      ListExactly(r, g);
    } else {
      SearchExactly(r, g);
    }
    hide ListOrSearch, ListPages.Answer, Select, ListPayload, SearchPayload, Asked, EnsureCatalog, Lasting;
  }

  lemma {:induction false} SessionIsWalk(c: State, f: ListFields, ms: seq<Package>, envs: nat -> Env, cursor: u16)
    requires Small(c) && Matching(c, f, ms, envs) && cursor != CURSOR_END && cursor <= |ms|
    ensures |ms| <= CATALOG_MAX && Session(c, f, envs, cursor) == ListPages.ClientWalk(OpcodeOf(f), ms, cursor)
    decreases CURSOR_END - cursor
  {
    hide Session, ListPages.ClientWalk, Reply, ListPages.Answer, ReadAll, ReadU16, Asked, Matching, Small, Lasting;
    MatchingReply(c, f, ms, envs, cursor);
    var d := Reply(c, Packet(Asked(f, cursor), envs(cursor)), PACKET_MAX).0;
    var b := ListPages.Answer(OpcodeOf(f), ms, cursor, PACKET_MAX);
    Forward(OpcodeOf(f), ms, cursor, b);
    SessionStep(c, f, envs, cursor, d, b);
    WalkStep(OpcodeOf(f), ms, cursor, b);
    if ReadU16(b, 2) != CURSOR_END {
      SessionIsWalk(d, f, ms, envs, ReadU16(b, 2));
    }
  }

  /** What this page shows, in front of what the following ones show. */
  function Shown(b: seq<byte>, more: Option<seq<Record>>): Option<seq<Record>>
    requires |b| >= HEADER_SIZE && ReadAll(Entries, b, HEADER_SIZE, |b|, b[4]).Some?
  {
    if more.None? then None else Some(ReadAll(Entries, b, HEADER_SIZE, |b|, b[4]).value + more.value)
  }

  lemma SessionStep(c: State, f: ListFields, envs: nat -> Env, cursor: u16, d: State, b: seq<byte>)
    requires Small(c) && Small(d) && Reply(c, Packet(Asked(f, cursor), envs(cursor)), PACKET_MAX) == (d, Some(b))
    requires |b| >= HEADER_SIZE && b[1] == STATUS_OK && ReadAll(Entries, b, HEADER_SIZE, |b|, b[4]).Some?
    requires ReadU16(b, 2) != CURSOR_END ==> cursor < ReadU16(b, 2)
    ensures Session(c, f, envs, cursor)
            == if ReadU16(b, 2) == CURSOR_END then ReadAll(Entries, b, HEADER_SIZE, |b|, b[4])
               else Shown(b, Session(d, f, envs, ReadU16(b, 2)))
  {
    hide Reply, ReadAll, ReadU16, Asked;
  }

  lemma WalkStep(opcode: byte, ms: seq<Package>, cursor: u16, b: seq<byte>)
    requires opcode < 0x80 && |ms| <= CATALOG_MAX && cursor <= |ms|
    requires b == ListPages.Answer(opcode, ms, cursor, PACKET_MAX)
    requires |b| >= HEADER_SIZE && b[1] == STATUS_OK && ReadAll(Entries, b, HEADER_SIZE, |b|, b[4]).Some?
    requires ReadU16(b, 2) != CURSOR_END ==> cursor < ReadU16(b, 2) <= |ms|
    ensures ListPages.ClientWalk(opcode, ms, cursor)
            == if ReadU16(b, 2) == CURSOR_END then ReadAll(Entries, b, HEADER_SIZE, |b|, b[4])
               else Shown(b, ListPages.ClientWalk(opcode, ms, ReadU16(b, 2)))
  {
    hide ListPages.Answer, ReadAll, ReadU16;
  }

  /** Every answer on the way is a page that leads forward. */
  lemma Forward(opcode: byte, ms: seq<Package>, cursor: u16, b: seq<byte>)
    requires opcode < 0x80 && |ms| <= CATALOG_MAX && cursor <= |ms|
    requires b == ListPages.Answer(opcode, ms, cursor, PACKET_MAX)
    ensures |b| >= HEADER_SIZE && b[1] == STATUS_OK && ReadAll(Entries, b, HEADER_SIZE, |b|, b[4]).Some?
    ensures ReadU16(b, 2) != CURSOR_END ==> cursor < ReadU16(b, 2) <= |ms|
  {
    hide ListPages.Answer, ReadAll, ReadU16;
    ListPages.WalkListsAll(opcode, ms, cursor);
  }

  /** Over the wire, while the matching packages stay the same over any refreshes of the catalogue: a client that lists
      or searches from cursor 0 and follows the cursors ends and sees exactly their entries, in catalogue order. */
  lemma SessionListsAll(c: State, f: ListFields, ms: seq<Package>, envs: nat -> Env)
    requires Small(c) && Matching(c, f, ms, envs)
    ensures Session(c, f, envs, 0) == Some(ListPages.Listing(ms, 0))
  {
    hide Session, Matching;
    SessionIsWalk(c, f, ms, envs, 0);
    ListPages.WalkListsAll(OpcodeOf(f), ms, 0);
  }

  // ----- the handler ----------------------------------------------------------------------------------------------

  /** Sends a reply, or -1 for none. */
  ghost predicate Sent(response: array<byte>, size: int, reply: Option<seq<byte>>)
    reads response
  {
    match reply
    case None => size == -1
    case Some(b) => size == |b| <= response.Length && response[..size] == b
  }

  method HandleListOrSearch(context: Context, request: seq<byte>, env: Env, response: array<byte>) returns (size: int)
    requires Small(context.View()) && 2 <= response.Length <= PACKET_MAX
    requires request != [] && (request[0] == RETRO_LIST || request[0] == RETRO_SEARCH)
    modifies context, response
    ensures var (c, b) := ListReply(old(context.View()), request, env, response.Length);
            context.View() == c && Sent(response, size, b)
  {
    hide ListOrSearch, ListPages.Answer, Select, EnsureCatalog;
    var fields := ListOrSearch(request);
    if fields.None? {
      size := WriteError(request[0], STATUS_BAD_REQUEST, response);
      return;
    }
    var f := fields.value;
    SmallStays(context.View(), env);
    var status := context.RefreshCatalog(env.now, env.http);
    if status != STATUS_OK {
      size := WriteError(request[0], status, response);
      return;
    }
    size := ListPages.WriteCatalogPage(
      context.packages, request[0], f.cursor, Filter(f.platform, f.model, f.query), response);
  }

  lemma SmallStays(c: State, env: Env)
    requires Small(c)
    ensures Small(EnsureCatalog(c, env.now, env.http).0)
  {
    hide ParseCatalog;
  }

  method HandleInfo(context: Context, request: seq<byte>, env: Env, response: array<byte>) returns (size: int)
    requires 2 <= response.Length <= PACKET_MAX && request != [] && request[0] == RETRO_INFO
    modifies context, response
    ensures var (c, b) := InfoReply(old(context.View()), request, env, response.Length);
            context.View() == c && Sent(response, size, Some(b))
  {
    hide InfoRequest, InfoPages.InfoAnswer, EnsureCatalog;
    var fields := InfoRequest(request);
    if fields.None? {
      size := WriteError(request[0], STATUS_BAD_REQUEST, response);
      return;
    }
    var (cursor, id) := fields.value;
    var status := context.RefreshCatalog(env.now, env.http);
    if status != STATUS_OK {
      size := WriteError(request[0], status, response);
      return;
    }
    var package := SearchPackages(context.packages, id);
    if package.None? {
      size := WriteError(request[0], STATUS_NOT_FOUND, response);
      return;
    }
    size := InfoWriter.WriteInfoPage(request[0], package.value, cursor, response);
  }

  method HandleDownload(context: Context, request: seq<byte>, env: Env, response: array<byte>) returns (size: int)
    requires 2 <= response.Length <= PACKET_MAX && request != [] && request[0] == RETRO_DOWNLOAD
    modifies context, response
    ensures var (c, b) := DownloadReply(old(context.View()), request, env, response.Length);
            context.View() == c && Sent(response, size, Some(b))
  {
    hide DownloadRequest, ChunkAnswer, EnsureDownload;
    var fields := DownloadRequest(request);
    if fields.None? || response.Length < DOWNLOAD_HEADER {
      size := WriteError(request[0], STATUS_BAD_REQUEST, response);
      return;
    }
    var f := fields.value;
    size := context.HandleDownload(request[0], Wanted(f, env), f.offset, f.maximum, response);
  }

  /** The whole request, against Reply. */
  method HandleRequest(context: Context, p: Packet, response: array<byte>) returns (size: int)
    requires Small(context.View()) && response.Length <= PACKET_MAX
    modifies context, response
    ensures var (c, b) := Reply(old(context.View()), p, response.Length);
            context.View() == c && Sent(response, size, b)
  {
    hide ListReply, InfoReply, DownloadReply;
    if p.request == [] || response.Length < 2 {
      return -1;
    }
    var opcode := p.request[0];
    if opcode == 0 && |p.request| == 1 {
      if response.Length < 7 {
        return -1;
      }
      CopyInto(response, 0, Capabilities(response.Length).value);
      size := 7;
    } else if opcode == RETRO_LIST || opcode == RETRO_SEARCH {
      size := HandleListOrSearch(context, p.request, p.env, response);
    } else if opcode == RETRO_INFO {
      size := HandleInfo(context, p.request, p.env, response);
    } else if opcode == RETRO_DOWNLOAD {
      size := HandleDownload(context, p.request, p.env, response);
    } else {
      size := WriteError(opcode % 0x80, STATUS_BAD_REQUEST, response);
    }
  }
}
