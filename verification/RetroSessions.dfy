/** Clients that download or read a package over the wire, one request packet after another. */
module RetroSessions {
  import opened Bytes
  import opened Records
  import opened Catalog
  import opened InfoPages
  import opened DownloadPath
  import opened RetroContext
  import opened Requests
  import opened RetroServer
  import opened RetroPromises

  // ----- DOWNLOAD -------------------------------------------------------------------------------------------------

  /** The download a client wants. */
  datatype Wish = Wish(packageId: Text, downloadId: Text)

  function ChunkRequest(w: Wish, offset: u32, maximum: byte): seq<byte>
  {
    DownloadPayload(DownloadFields(offset, maximum, w.packageId, w.downloadId))
  }

  /** One request for a chunk and what the client reads out of the reply, with the plugin's state afterwards. */
  function AskChunk(c: State, w: Wish, env: Env, maximum: byte, capacity: nat, offset: u32): (r: (State, Option<Chunk>))
    requires Small(c) && capacity <= PACKET_MAX
    ensures Small(r.0)
  {
    var p := Packet(ChunkRequest(w, offset, maximum), env);
    ReplyState(c, p, capacity);
    var (d, reply) := Reply(c, p, capacity);
    (d, if reply.None? then None else ReadChunk(RETRO_DOWNLOAD, reply.value))
  }

  function Prefixed(data: seq<byte>, r: (State, Option<seq<byte>>)): (State, Option<seq<byte>>)
  {
    (r.0, if r.1.None? then None else Some(data + r.1.value))
  }

  /** A client that asks for the chunk at `offset`, with any limit per request, and goes on where it ended until it has
      the announced total. The result is the plugin's state afterwards and the bytes, or None if a reply is refused or
      stands still. */
  function Downloaded(c: State, w: Wish, envs: nat -> Env, limit: nat -> byte, capacity: nat, offset: u32)
    : (State, Option<seq<byte>>)
    requires Small(c) && capacity <= PACKET_MAX
    decreases 0xFFFF_FFFF - offset
  {
    var (d, chunk) := AskChunk(c, w, envs(offset), limit(offset), capacity, offset);
    if chunk.None? || chunk.value.offset != offset then (d, None)
    else
      var next := offset + |chunk.value.data|;
      if next == chunk.value.total then (d, Some(chunk.value.data))
      else if !(offset < next < chunk.value.total) then (d, None)
      else Prefixed(chunk.value.data, Downloaded(d, w, envs, limit, capacity, next))
  }

  /** The packages name the wanted download, and its cache key is `path`. */
  ghost predicate Named(ps: seq<Package>, w: Wish, path: seq<byte>)
  {
    && Safe(w.packageId) && Safe(w.downloadId) && |path| < 768
    && exists p, d :: Names(ps, w.packageId, w.downloadId, p, d)
                      && Safe(p.id) && Safe(d.id) && path == CanonicalText(p, d.id)
  }

  lemma NamedResolves(c: State, w: Wish, path: seq<byte>)
    requires Named(c.packages, w, path)
    ensures var t := Resolve(c, w.packageId, w.downloadId); t.Target? && t.path == path
  {
    hide Resolve, Safe, CanonicalText, Names;
    var p, d :| Names(c.packages, w.packageId, w.downloadId, p, d)
                && Safe(p.id) && Safe(d.id) && path == CanonicalText(p, d.id);
    ResolveExactly(c, w.packageId, w.downloadId, p, d, path);
  }

  /** The catalogue entry does not change while the client is at it: the catalogue stays fresh, or it may be fetched
      anew for any packet and keeps the entry. */
  ghost predicate Steady(c: State, w: Wish, path: seq<byte>, envs: nat -> Env)
  {
    Kept(c, envs, ps => Named(ps, w, path))
  }

  /** One look at the catalogue under these conditions. */
  lemma SteadyCatalog(c: State, w: Wish, path: seq<byte>, envs: nat -> Env, k: nat)
    requires Small(c) && Steady(c, w, path, envs)
    ensures var (d, status) := EnsureCatalog(c, envs(k).now, envs(k).http);
            && status == STATUS_OK && Steady(d, w, path, envs) && d.path == c.path && d.data == c.data
            && (Lasting(c, envs) ==> d == c)
            && var t := Resolve(d, w.packageId, w.downloadId); t.Target? && t.path == path
  {
    hide EnsureCatalog, Lasting, Resolve;
    KeptLook(c, envs, ps => Named(ps, w, path), k);
    var d := EnsureCatalog(c, envs(k).now, envs(k).http).0;
    NamedResolves(d, w, path);
  }

  /** What the first packet leaves in the cache: what is there under the path, or the body of the deciding answer. */
  ghost function Body(c: State, w: Wish, path: seq<byte>, env: Env): Option<seq<byte>>
  {
    if c.path == Some(path) then Some(c.data)
    else
      var t := Resolve(EnsureCatalog(c, env.now, env.http).0, w.packageId, w.downloadId);
      if t.Refused? then None
      else
        var f := Deciding(t, env.first, env.second);
        if Good(f) then Some(f.body) else None
  }

  lemma SteadyStays(c: State, w: Wish, path: seq<byte>, envs: nat -> Env, data: seq<byte>, key: Option<seq<byte>>)
    requires Steady(c, w, path, envs)
    ensures Steady(c.(data := data, path := key), w, path, envs)
  {
    hide Named, Brings, Lasting;
    if Lasting(c, envs) {
      LastingStays(c, envs, c.(data := data, path := key));
    }
  }

  lemma SteadySafe(c: State, w: Wish, path: seq<byte>, envs: nat -> Env)
    requires Steady(c, w, path, envs)
    ensures Safe(w.packageId) && Safe(w.downloadId)
  {
  }

  /** One fetch under these conditions. */
  lemma SteadyDownload(c: State, w: Wish, path: seq<byte>, envs: nat -> Env, k: nat)
    requires Small(c) && Steady(c, w, path, envs)
    ensures var e := envs(k);
            var (d, status) :=
              EnsureDownload(c, NeedDownload(e.now, e.http, w.packageId, w.downloadId, e.first, e.second));
            && Steady(d, w, path, envs)
            && (Lasting(c, envs) ==> d == c.(path := d.path, data := d.data))
            && match Body(c, w, path, e)
               case None => d.path == c.path && d.data == c.data && status != STATUS_OK
               case Some(body) => d.path == Some(path) && d.data == body && status == STATUS_OK
  {
    hide EnsureCatalog, Resolve, Deciding, Steady, Lasting, Safe;
    SteadySafe(c, w, path, envs);
    SteadyCatalog(c, w, path, envs, k);
    var catalog := EnsureCatalog(c, envs(k).now, envs(k).http).0;
    var body := Body(c, w, path, envs(k));
    if body.Some? {
      SteadyStays(catalog, w, path, envs, body.value, Some(path));
    }
  }

  /** What the client reads out of the answer to a request for this part of a body. */
  ghost function ChunkOf(body: seq<byte>, offset: u32, maximum: byte, capacity: nat): Option<Chunk>
    requires capacity >= DOWNLOAD_HEADER && offset <= |body|
  {
    if |body| > 0xFFFF_FFFF then None
    else
      var n := PartSize(DOWNLOAD_HEADER, |body| - offset, maximum, capacity);
      Some(Chunk(offset, |body|, body[offset..offset + n]))
  }

  lemma ChunkOfAnswer(body: seq<byte>, offset: u32, maximum: byte, capacity: nat)
    requires capacity >= DOWNLOAD_HEADER && offset <= |body|
    ensures ReadChunk(RETRO_DOWNLOAD, ChunkAnswer(RETRO_DOWNLOAD, body, offset, maximum, capacity))
            == ChunkOf(body, offset, maximum, capacity)
  {
    if |body| <= 0xFFFF_FFFF {
      ChunkReadBack(RETRO_DOWNLOAD, body, offset, maximum, capacity);
    }
  }

  /** A request for a chunk reaches the plugin as it was meant. */
  lemma AskedChunk(c: State, w: Wish, env: Env, maximum: byte, capacity: nat, offset: u32)
    requires Small(c) && DOWNLOAD_HEADER <= capacity <= PACKET_MAX && w.packageId != [] && w.downloadId != []
    ensures var (d, status) :=
              EnsureDownload(c, NeedDownload(env.now, env.http, w.packageId, w.downloadId, env.first, env.second));
            AskChunk(c, w, env, maximum, capacity, offset)
            == (d, if status != STATUS_OK then None
                   else ReadChunk(RETRO_DOWNLOAD, ChunkAnswer(RETRO_DOWNLOAD, d.data, offset, maximum, capacity)))
  {
    var f := DownloadFields(offset, maximum, w.packageId, w.downloadId);
    DownloadExactly(ChunkRequest(w, offset, maximum), f);
    hide DownloadRequest, EnsureDownload, ChunkAnswer, Small;
  }

  /** One request packet under these conditions: the client gets the chunk of the cached body, or an error that leaves
      the cache alone. */
  lemma SteadyChunk(c: State, w: Wish, path: seq<byte>, envs: nat -> Env, maximum: byte, capacity: nat, offset: u32)
    requires Small(c) && DOWNLOAD_HEADER < capacity <= PACKET_MAX && Steady(c, w, path, envs)
    requires Body(c, w, path, envs(offset)).Some? ==> offset <= |Body(c, w, path, envs(offset)).value|
    ensures var (d, chunk) := AskChunk(c, w, envs(offset), maximum, capacity, offset);
            && Steady(d, w, path, envs) && (Lasting(c, envs) ==> d == c.(path := d.path, data := d.data))
            && match Body(c, w, path, envs(offset))
               case None => d.path == c.path && d.data == c.data && chunk == None
               case Some(body) =>
                 d.path == Some(path) && d.data == body && chunk == ChunkOf(body, offset, maximum, capacity)
  {
    hide AskChunk, EnsureDownload, ChunkAnswer, ReadChunk, ChunkOf, Body, Lasting, Steady, Small;
    SteadySafe(c, w, path, envs);
    AskedChunk(c, w, envs(offset), maximum, capacity, offset);
    SteadyDownload(c, w, path, envs, offset);
    var body := Body(c, w, path, envs(offset));
    if body.Some? {
      ChunkOfAnswer(body.value, offset, maximum, capacity);
    }
  }

  /** The client after a chunk that leads on or is the last one. */
  lemma DownloadedStep(
      c: State, w: Wish, envs: nat -> Env, limit: nat -> byte, capacity: nat, offset: u32, d: State, total: u32,
      data: seq<byte>)
    requires Small(c) && Small(d) && capacity <= PACKET_MAX
    requires AskChunk(c, w, envs(offset), limit(offset), capacity, offset) == (d, Some(Chunk(offset, total, data)))
    requires offset + |data| <= total && (|data| > 0 || total == offset)
    ensures Downloaded(c, w, envs, limit, capacity, offset)
            == if offset + |data| == total then (d, Some(data))
               else Prefixed(data, Downloaded(d, w, envs, limit, capacity, offset + |data|))
  {
    hide AskChunk, Small, Prefixed;
  }

  lemma BodyCached(c: State, w: Wish, path: seq<byte>, env: Env)
    requires c.path == Some(path)
    ensures Body(c, w, path, env) == Some(c.data)
  {
  }

  lemma Rest(data: seq<byte>, offset: nat, n: nat)
    requires offset + n <= |data|
    ensures data[offset..] == data[offset..offset + n] + data[offset + n..]
    ensures offset + n == |data| ==> data[offset..offset + n] == data[offset..]
  {
  }

  /** Once the body is cached the client gets the rest of it, whatever the limits and the refreshes of the catalogue. */
  lemma {:induction false} CachedArrives(
      c: State, w: Wish, path: seq<byte>, envs: nat -> Env, limit: nat -> byte, capacity: nat, offset: u32)
    requires Small(c) && DOWNLOAD_HEADER < capacity <= PACKET_MAX && Steady(c, w, path, envs)
    requires c.path == Some(path) && offset <= |c.data| <= 0xFFFF_FFFF
    ensures var (e, got) := Downloaded(c, w, envs, limit, capacity, offset);
            && got == Some(c.data[offset..]) && e.path == c.path && e.data == c.data
            && (Lasting(c, envs) ==> e == c)
    decreases 0xFFFF_FFFF - offset
  {
    hide Downloaded, AskChunk, PartSize, Body, Steady, Small, Lasting;
    BodyCached(c, w, path, envs(offset));
    SteadyChunk(c, w, path, envs, limit(offset), capacity, offset);
    var d := AskChunk(c, w, envs(offset), limit(offset), capacity, offset).0;
    var n := PartSize(DOWNLOAD_HEADER, |c.data| - offset, limit(offset), capacity);
    var part := c.data[offset..offset + n];
    Rest(c.data, offset, n);
    DownloadedStep(c, w, envs, limit, capacity, offset, d, |c.data|, part);
    assert Lasting(c, envs) ==> d == c;
    if offset + n < |c.data| {
      CachedArrives(d, w, path, envs, limit, capacity, offset + n);
    }
  }

  /** A download from 0 on: the bytes the client has in the end are exactly the body that the first packet leaves in
      the cache, and no later packet changes the cache. It comes out whole exactly when that body exists and its size
      can be announced. */
  lemma DownloadArrives(c: State, w: Wish, path: seq<byte>, envs: nat -> Env, limit: nat -> byte, capacity: nat)
    requires Small(c) && DOWNLOAD_HEADER < capacity <= PACKET_MAX && Steady(c, w, path, envs)
    ensures var (e, got) := Downloaded(c, w, envs, limit, capacity, 0);
            && (Lasting(c, envs) ==> e == c.(path := e.path, data := e.data))
            && match Body(c, w, path, envs(0))
               case None => got == None && e.path == c.path && e.data == c.data
               case Some(body) =>
                 e.path == Some(path) && e.data == body && got == if |body| <= 0xFFFF_FFFF then Some(body) else None
  {
    hide AskChunk, PartSize, Body, Steady, Small, Lasting;
    SteadyChunk(c, w, path, envs, limit(0), capacity, 0);
    var d := AskChunk(c, w, envs(0), limit(0), capacity, 0).0;
    var first := Body(c, w, path, envs(0));
    if Lasting(c, envs) {
      LastingStays(c, envs, d);
    }
    if first.Some? && |first.value| <= 0xFFFF_FFFF {
      var n := PartSize(DOWNLOAD_HEADER, |first.value|, limit(0), capacity);
      Rest(first.value, 0, n);
      hide Downloaded;
      DownloadedStep(c, w, envs, limit, capacity, 0, d, |first.value|, first.value[0..n]);
      if n < |first.value| {
        CachedArrives(d, w, path, envs, limit, capacity, n);
      }
    }
  }

  /** In every run of the plugin: a download that comes out whole is, byte for byte, the body of the last successful
      fetch under its path, whether an earlier packet or the client's first one made the plugin fetch it. */
  lemma DownloadIsWhatWasFetched(
      ps: seq<Packet>, w: Wish, path: seq<byte>, envs: nat -> Env, limit: nat -> byte, capacity: nat) returns (k: nat)
    requires DOWNLOAD_HEADER < capacity <= PACKET_MAX && Steady(Served(ps, capacity), w, path, envs)
    requires Downloaded(Served(ps, capacity), w, envs, limit, capacity, 0).1.Some?
    ensures var rs := Needs(ps + [Packet(ChunkRequest(w, 0, limit(0)), envs(0))], capacity);
            && k < |rs| && QuietFrom(rs, k + 1)
            && Stores(Run(rs[..k]), rs[k], path, Downloaded(Served(ps, capacity), w, envs, limit, capacity, 0).1.value)
  {
    hide Downloaded, AskChunk, Steady, Lasting, Stores, QuietFrom, Body;
    var c, p := Served(ps, capacity), Packet(ChunkRequest(w, 0, limit(0)), envs(0));
    DownloadArrives(c, w, path, envs, limit, capacity);
    SteadyChunk(c, w, path, envs, limit(0), capacity, 0);
    ServedAppend(ps, p, capacity);
    AskedState(c, w, envs(0), limit(0), capacity, 0);
    ServedIsRun(ps + [p], capacity);
    var last := DownloadIsLastFetch(Needs(ps + [p], capacity));
    k := last;
  }

  lemma ServedAppend(ps: seq<Packet>, p: Packet, capacity: nat)
    requires capacity <= PACKET_MAX
    ensures Served(ps + [p], capacity) == Reply(Served(ps, capacity), p, capacity).0
  {
    hide Reply;
    assert (ps + [p])[..|ps|] == ps;
  }

  lemma AskedState(c: State, w: Wish, env: Env, maximum: byte, capacity: nat, offset: u32)
    requires Small(c) && capacity <= PACKET_MAX
    ensures AskChunk(c, w, env, maximum, capacity, offset).0
            == Reply(c, Packet(ChunkRequest(w, offset, maximum), env), capacity).0
  {
    hide Reply;
  }

  // ----- INFO -----------------------------------------------------------------------------------------------------

  /** One INFO request of a client that has come as far as `w`. */
  function AskInfo(c: State, id: Text, env: Env, w: Walk): (r: (State, Walk))
    requires Small(c)
    ensures Small(r.0)
  {
    var p := Packet(InfoPayload(w.cursor, id), env);
    ReplyState(c, p, PACKET_MAX);
    var (d, reply) := Reply(c, p, PACKET_MAX);
    (d, if reply.None? then w else Turned(Values, w, reply.value))
  }

  /** A client that sends INFO requests for a package, one per page, and follows the cursors. */
  function InfoSession(c: State, id: Text, envs: nat -> Env, pages: nat): (r: (State, Walk))
    requires Small(c)
    ensures Small(r.0)
  {
    if pages == 0 then (c, Walk([], false, 0))
    else
      var (d, w) := InfoSession(c, id, envs, pages - 1);
      if w.finished then (d, w) else AskInfo(d, id, envs(pages), w)
  }

  /** The first package with the identifier is `p`, before and after every refresh. */
  ghost predicate Described(c: State, id: Text, p: Package, envs: nat -> Env)
  {
    Kept(c, envs, ps => Leads(ps, id, p))
  }

  /** One INFO packet under these conditions. */
  lemma DescribedInfo(c: State, id: Text, p: Package, envs: nat -> Env, k: nat, w: Walk)
    requires Small(c) && Described(c, id, p, envs) && id != []
    ensures var (d, t) := AskInfo(c, id, envs(k), w);
            && Described(d, id, p, envs) && (Lasting(c, envs) ==> d == c)
            && t == Turned(Values, w, InfoAnswer(RETRO_INFO, p, w.cursor, PACKET_MAX))
  {
    hide InfoRequest, InfoAnswer, FindPackage, Leads, Turned, EnsureCatalog, Lasting;
    KeptLook(c, envs, ps => Leads(ps, id, p), k);
    LeadsIsFound(EnsureCatalog(c, envs(k).now, envs(k).http).0.packages, id, p);
    InfoExactly(InfoPayload(w.cursor, id), w.cursor, id);
  }

  lemma {:induction false} InfoSessionIsWalk(c: State, id: Text, p: Package, envs: nat -> Env, pages: nat)
    requires Small(c) && Described(c, id, p, envs) && id != []
    ensures var (d, w) := InfoSession(c, id, envs, pages);
            w == ClientInfo(RETRO_INFO, p, pages) && Described(d, id, p, envs) && (Lasting(c, envs) ==> d == c)
  {
    hide AskInfo, Turned, InfoAnswer, Described, Small, Lasting;
    if pages > 0 {
      InfoSessionIsWalk(c, id, p, envs, pages - 1);
      var (d, w) := InfoSession(c, id, envs, pages - 1);
      DescribedInfo(d, id, p, envs, pages, w);
    }
  }

  /** The client finishes having seen exactly all records of the package. */
  ghost predicate SeesAll(c: State, id: Text, envs: nat -> Env, p: Package)
    requires Small(c)
  {
    exists pages: nat ::
      InfoSession(c, id, envs, pages).1.finished && InfoSession(c, id, envs, pages).1.seen == AllRecords(p)
  }

  /** Over the wire, while the package stays the same over any refreshes of the catalogue: a client that asks for it and
      follows the cursors ends with every record once and in order, exactly when there are at most 65535 of them. */
  lemma InfoSessionTraverses(c: State, id: Text, p: Package, envs: nat -> Env)
    requires Small(c) && Described(c, id, p, envs) && id != []
    ensures SeesAll(c, id, envs, p) <==> RecordCount(p) <= 0xFFFF
  {
    hide InfoSession, ClientInfo, AllRecords, RecordCount, Small, Described;
    InfoTraversal(RETRO_INFO, p);
    if SeesAll(c, id, envs, p) {
      var pages: nat :|
        InfoSession(c, id, envs, pages).1.finished && InfoSession(c, id, envs, pages).1.seen == AllRecords(p);
      InfoSessionIsWalk(c, id, p, envs, pages);
    }
    if Traversed(RETRO_INFO, p) {
      var pages: nat :|
        ClientInfo(RETRO_INFO, p, pages).finished && ClientInfo(RETRO_INFO, p, pages).seen == AllRecords(p);
      InfoSessionIsWalk(c, id, p, envs, pages);
    }
  }

  /** INFO is answered NOT_FOUND exactly when no package of the catalogue has the identifier, up to letter case. */
  lemma InfoNotFound(c: State, id: Text, env: Env, cursor: u16)
    requires Small(c) && id != [] && EnsureCatalog(c, env.now, env.http).1 == STATUS_OK
    ensures var ps := EnsureCatalog(c, env.now, env.http).0.packages;
            var reply := Reply(c, Packet(InfoPayload(cursor, id), env), PACKET_MAX).1;
            reply == Some([0x83, 3]) <==> forall k | 0 <= k < |ps| :: !SameText(ps[k].id, id)
  {
    hide InfoRequest, FindPackage, EnsureCatalog, SameText, InfoAnswer;
    var d := EnsureCatalog(c, env.now, env.http).0;
    InfoExactly(InfoPayload(cursor, id), cursor, id);
    FindPackageExactly(d.packages, id);
    if FindPackage(d.packages, id).Some? {
      InfoAnswerCode(FindPackage(d.packages, id).value, cursor);
    }
  }

  lemma InfoAnswerCode(p: Package, cursor: u16)
    ensures InfoAnswer(RETRO_INFO, p, cursor, PACKET_MAX) != [0x83, 3]
  {
    hide InfoBuild, PageBytes;
    if cursor <= RecordCount(p) {
      InfoStep(RETRO_INFO, p, cursor);
    }
  }
}
