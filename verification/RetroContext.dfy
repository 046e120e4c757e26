/** The two caches of the Retro Vault plugin over all runs of requests, clock readings and HTTP outcomes. */
module RetroContext {
  import opened Bytes
  import opened Records
  import opened Catalog
  import opened CatalogParse
  import opened DownloadPath

  const DOWNLOAD_HEADER: nat := 11

  /** Where the catalogue is fetched. */
  const CATALOG_URL: seq<byte> := Ascii("/api/v1/catalog/packages")

  datatype HttpResult = HttpOk | HttpError | HttpTooLarge

  /** One HTTP exchange: the client's result, the status line, the body. */
  datatype Fetch = Fetch(result: HttpResult, status: int, body: seq<byte>)

  predicate Good(f: Fetch) { f.result.HttpOk? && 200 <= f.status < 300 }

  function HttpStatus(f: Fetch): byte
  {
    if f.result.HttpTooLarge? then STATUS_TOO_LARGE
    else if f.status == 404 || f.status == 409 then STATUS_NOT_FOUND
    else STATUS_API_UNAVAILABLE
  }

  /** `path` is the key of the cached download and `data` its bytes. */
  datatype State = State(packages: seq<Package>, fetchedAt: int, seconds: nat, data: seq<byte>, path: Option<seq<byte>>)

  const Initial := State([], 0, 3600, [], None)

  /** The catalogue is young enough to be used as it is. */
  predicate Fresh(c: State, now: int)
  {
    c.packages != [] && now != -1 && c.fetchedAt != 0 && 0 <= now - c.fetchedAt < c.seconds
  }

  /** A response that can become the catalogue. */
  predicate Usable(http: Option<Fetch>)
  {
    http.Some? && Good(http.value) && ParseCatalog(http.value.body).Some?
  }

  /** ensure_catalog; `http` is None when no HTTP client is configured. */
  function EnsureCatalog(c: State, now: int, http: Option<Fetch>): (State, byte)
  {
    if Fresh(c, now) then (c, STATUS_OK)
    else if http.None? then (c, STATUS_API_UNAVAILABLE)
    else if Usable(http) then
      (c.(packages := ParseCatalog(http.value.body).value, fetchedAt := if now != -1 then now else 1), STATUS_OK)
    else if c.packages != [] then (c, STATUS_OK)
    else if !http.value.result.HttpOk? then (c, HttpStatus(http.value))
    else (c, if http.value.status == 404 then STATUS_NOT_FOUND else STATUS_INTERNAL_ERROR)
  }

  function FindPackage(ps: seq<Package>, id: seq<byte>): (r: Option<Package>)
    ensures r.Some? ==> r.value in ps && SameText(r.value.id, id)
  {
    if ps == [] then None else if SameText(ps[0].id, id) then Some(ps[0]) else FindPackage(ps[1..], id)
  }

  function FindDownload(ds: seq<Download>, id: seq<byte>): (r: Option<Download>)
    ensures r.Some? ==> r.value in ds && SameText(r.value.id, id)
  {
    if ds == [] then None else if SameText(ds[0].id, id) then Some(ds[0]) else FindDownload(ds[1..], id)
  }

  /** `k` is the first package with this identifier, up to letter case. */
  predicate FirstPackage(ps: seq<Package>, id: seq<byte>, k: nat)
  {
    k < |ps| && SameText(ps[k].id, id) && forall j | 0 <= j < k :: !SameText(ps[j].id, id)
  }

  predicate FirstDownload(ds: seq<Download>, id: seq<byte>, k: nat)
  {
    k < |ds| && SameText(ds[k].id, id) && forall j | 0 <= j < k :: !SameText(ds[j].id, id)
  }

  /** A package is found exactly when some package has the identifier, and then it is the first of them. */
  lemma {:induction false} FindPackageExactly(ps: seq<Package>, id: seq<byte>)
    ensures FindPackage(ps, id).None? <==> forall k | 0 <= k < |ps| :: !SameText(ps[k].id, id)
    ensures FindPackage(ps, id).Some? ==> exists k: nat :: FirstPackage(ps, id, k)
    ensures forall k: nat | FirstPackage(ps, id, k) :: FindPackage(ps, id) == Some(ps[k])
  {
    hide SameText;
    if ps != [] && !SameText(ps[0].id, id) {
      var rest := ps[1..];
      FindPackageExactly(rest, id);
      assert forall k | 0 < k < |ps| :: ps[k] == rest[k - 1];
      if FindPackage(rest, id).Some? {
        var k: nat :| FirstPackage(rest, id, k);
        assert FirstPackage(ps, id, k + 1);
      }
      forall k: nat | FirstPackage(ps, id, k)
        ensures FindPackage(ps, id) == Some(ps[k])
      {
        assert FirstPackage(rest, id, k - 1);
      }
    } else if ps != [] {
      assert FirstPackage(ps, id, 0);
    }
  }

  lemma {:induction false} FindDownloadExactly(ds: seq<Download>, id: seq<byte>)
    ensures FindDownload(ds, id).None? <==> forall k | 0 <= k < |ds| :: !SameText(ds[k].id, id)
    ensures FindDownload(ds, id).Some? ==> exists k: nat :: FirstDownload(ds, id, k)
    ensures forall k: nat | FirstDownload(ds, id, k) :: FindDownload(ds, id) == Some(ds[k])
  {
    hide SameText;
    if ds != [] && !SameText(ds[0].id, id) {
      var rest := ds[1..];
      FindDownloadExactly(rest, id);
      assert forall k | 0 < k < |ds| :: ds[k] == rest[k - 1];
      if FindDownload(rest, id).Some? {
        var k: nat :| FirstDownload(rest, id, k);
        assert FirstDownload(ds, id, k + 1);
      }
      forall k: nat | FirstDownload(ds, id, k)
        ensures FindDownload(ds, id) == Some(ds[k])
      {
        assert FirstDownload(rest, id, k - 1);
      }
    } else if ds != [] {
      assert FirstDownload(ds, id, 0);
    }
  }

  /** find_package: the loop over the catalogue. */
  method SearchPackages(ps: seq<Package>, id: seq<byte>) returns (r: Option<Package>)
    ensures r.None? ==> forall k | 0 <= k < |ps| :: !SameText(ps[k].id, id)
    ensures r.Some? ==> exists k: nat :: FirstPackage(ps, id, k) && r == Some(ps[k])
    ensures r == FindPackage(ps, id)
  {
    hide SameText, FindPackage;
    FindPackageExactly(ps, id);
    for i := 0 to |ps|
      invariant forall j | 0 <= j < i :: !SameText(ps[j].id, id)
    {
      var same := TextEquals(ps[i].id, id);
      if same {
        assert FirstPackage(ps, id, i);
        return Some(ps[i]);
      }
    }
    return None;
  }

  /** find_download. */
  method SearchDownloads(ds: seq<Download>, id: seq<byte>) returns (r: Option<Download>)
    ensures r.None? ==> forall k | 0 <= k < |ds| :: !SameText(ds[k].id, id)
    ensures r.Some? ==> exists k: nat :: FirstDownload(ds, id, k) && r == Some(ds[k])
    ensures r == FindDownload(ds, id)
  {
    hide SameText, FindDownload;
    FindDownloadExactly(ds, id);
    for i := 0 to |ds|
      invariant forall j | 0 <= j < i :: !SameText(ds[j].id, id)
    {
      var same := TextEquals(ds[i].id, id);
      if same {
        assert FirstDownload(ds, id, i);
        return Some(ds[i]);
      }
    }
    return None;
  }

  /** What a request for a download names in the current catalogue: its package and download, or the refusal. */
  datatype Target = Target(package: Package, download: Download, path: seq<byte>) | Refused(status: byte)

  function Resolve(c: State, packageId: seq<byte>, downloadId: seq<byte>): Target
  {
    var p := FindPackage(c.packages, packageId);
    if p.None? then Refused(STATUS_NOT_FOUND)
    else
      var d := FindDownload(p.value.downloads, downloadId);
      if d.None? then Refused(STATUS_NOT_FOUND)
      else
        var path := Canonical(p.value, d.value.id);
        if path.None? then Refused(STATUS_INTERNAL_ERROR) else Target(p.value, d.value, path.value)
  }

  /** A request that needs the catalogue, or a download from it; with the outcomes of the HTTP calls it may make. */
  datatype Request =
    | NeedCatalog(now: int, http: Option<Fetch>)
    | NeedDownload(
        now: int, http: Option<Fetch>, packageId: seq<byte>, downloadId: seq<byte>, first: Fetch, second: Fetch)

  /** Whether the first answer makes the plugin ask again with the platform and model in the query. */
  predicate Retries(t: Target, first: Fetch)
    requires t.Target?
  {
    !Good(first) && first.status == 409
    && Disambiguated(t.package, t.download.id).Some? && Disambiguated(t.package, t.download.id).value != t.path
  }

  /** The answer that decides: the second one after a retry. */
  function Deciding(t: Target, first: Fetch, second: Fetch): Fetch
    requires t.Target?
  {
    if Retries(t, first) then second else first
  }

  /** ensure_download. */
  function EnsureDownload(c: State, r: Request): (State, byte)
    requires r.NeedDownload?
  {
    if !Safe(r.packageId) || !Safe(r.downloadId) then (c, STATUS_BAD_REQUEST)
    else
      var (d, status) := EnsureCatalog(c, r.now, r.http);
      if status != STATUS_OK then (d, status)
      else
        var t := Resolve(d, r.packageId, r.downloadId);
        if t.Refused? then (d, t.status)
        else if d.path == Some(t.path) then (d, STATUS_OK)
        else
          var f := Deciding(t, r.first, r.second);
          if Good(f) then (d.(data := f.body, path := Some(t.path)), STATUS_OK) else (d, HttpStatus(f))
  }

  /** The addresses a request makes the plugin ask for, in order. */
  function Urls(c: State, r: Request): seq<seq<byte>>
  {
    if r.NeedDownload? && (!Safe(r.packageId) || !Safe(r.downloadId)) then []
    else
      var catalog := if Fresh(c, r.now) || r.http.None? then [] else [CATALOG_URL];
      var (d, status) := EnsureCatalog(c, r.now, r.http);
      if r.NeedCatalog? || status != STATUS_OK then catalog
      else
        var t := Resolve(d, r.packageId, r.downloadId);
        if t.Refused? || d.path == Some(t.path) then catalog
        else if Retries(t, r.first) then catalog + [t.path, Disambiguated(t.package, t.download.id).value]
        else catalog + [t.path]
  }

  function Handle(c: State, r: Request): (State, byte)
  {
    if r.NeedCatalog? then EnsureCatalog(c, r.now, r.http) else EnsureDownload(c, r)
  }

  function Run(rs: seq<Request>): State
  {
    if rs == [] then Initial else Handle(Run(rs[..|rs| - 1]), rs[|rs| - 1]).0
  }

  // ----- the catalogue -------------------------------------------------------------------------------------------

  /** In every run the catalogue is empty or the parse of one of the successful responses, and never exceeds the range
      of the 16-bit cursor. */
  lemma {:induction false} CatalogFromOneResponse(rs: seq<Request>)
    ensures |Run(rs).packages| <= CATALOG_MAX
    ensures Run(rs).packages == []
            || exists k | 0 <= k < |rs| ::
                 Usable(rs[k].http) && ParseCatalog(rs[k].http.value.body) == Some(Run(rs).packages)
  {
    hide ParseCatalog, Resolve, Deciding, Safe;
    if rs != [] {
      var before, r := rs[..|rs| - 1], rs[|rs| - 1];
      CatalogFromOneResponse(before);
      var c, d := Run(before), Run(rs);
      if d.packages == c.packages {
        if c.packages != [] {
          var k :| 0 <= k < |before| && Usable(before[k].http)
                   && ParseCatalog(before[k].http.value.body) == Some(c.packages);
          assert rs[k] == before[k];
        }
      } else {
        assert Usable(rs[|rs| - 1].http);
      }
    }
  }

  lemma {:induction false} RunAppend(a: seq<Request>, r: Request)
    ensures Run(a + [r]) == Handle(Run(a), r).0
  {
    assert (a + [r])[..|a|] == a;
  }

  lemma SurvivesOne(c: State, r: Request)
    requires c.packages != [] && !Usable(r.http)
    ensures Handle(c, r).0.packages == c.packages
  {
    hide Usable, Resolve, Deciding, Safe;
  }

  /** A catalogue that is not empty outlives any number of failed, refused or unparsable refreshes: it stays as it is
      and every request for it is answered OK. */
  lemma {:induction false} CatalogSurvives(rs: seq<Request>, more: seq<Request>, now: int, http: Option<Fetch>)
    requires Run(rs).packages != [] && forall k | 0 <= k < |more| :: !Usable(more[k].http)
    requires http.Some? && !Usable(http)
    ensures Run(rs + more).packages == Run(rs).packages
    ensures EnsureCatalog(Run(rs + more), now, http) == (Run(rs + more), STATUS_OK)
    decreases |more|
  {
    hide Run, Handle, Usable;
    if more == [] {
      assert rs + more == rs;
    } else {
      var n := |more| - 1;
      CatalogSurvives(rs, more[..n], now, http);
      RunAppend(rs + more[..n], more[n]);
      SurvivesOne(Run(rs + more[..n]), more[n]);
      assert rs + more == (rs + more[..n]) + [more[n]];
    }
  }

  /** The request looks at the catalogue when it is stale and gets a usable response. */
  ghost predicate Refreshes(c: State, r: Request)
  {
    !Fresh(c, r.now) && Usable(r.http) && (r.NeedDownload? ==> Safe(r.packageId) && Safe(r.downloadId))
  }

  /** Only such a request changes the catalogue, and then it takes over the whole response and the time of it. */
  lemma CatalogStep(c: State, r: Request)
    ensures var d := Handle(c, r).0;
            if Refreshes(c, r) then
              d.packages == ParseCatalog(r.http.value.body).value && d.fetchedAt == (if r.now != -1 then r.now else 1)
            else d.packages == c.packages && d.fetchedAt == c.fetchedAt
  {
    hide ParseCatalog, Resolve, Deciding, Safe, Fresh;
  }

  /** The requests from number `from` on leave the catalogue alone. */
  ghost predicate SteadyFrom(rs: seq<Request>, from: nat)
  {
    forall j | from <= j < |rs| :: !Refreshes(Run(rs[..j]), rs[j])
  }

  lemma SteadyStep(rs: seq<Request>, from: nat)
    requires rs != [] && SteadyFrom(rs[..|rs| - 1], from) && !Refreshes(Run(rs[..|rs| - 1]), rs[|rs| - 1])
    ensures SteadyFrom(rs, from)
  {
    hide Refreshes, Run;
    var before := rs[..|rs| - 1];
    forall j | from <= j < |rs|
      ensures !Refreshes(Run(rs[..j]), rs[j])
    {
      if j < |before| {
        assert before[..j] == rs[..j] && before[j] == rs[j];
      }
    }
  }

  lemma SteadyEmpty(rs: seq<Request>)
    ensures SteadyFrom(rs, |rs|)
  {
  }

  /** In every run the catalogue and its time are those of the last request that looked at it when it was stale and got
      a usable response; fresh reads, failures and unparsable answers since then have not changed them. */
  lemma {:induction false} CatalogIsLastRefresh(rs: seq<Request>) returns (k: int)
    ensures -1 <= k < |rs| && SteadyFrom(rs, k + 1)
    ensures k == -1 ==> Run(rs).packages == [] && Run(rs).fetchedAt == 0
    ensures k >= 0 ==>
              && Refreshes(Run(rs[..k]), rs[k])
              && Run(rs).packages == ParseCatalog(rs[k].http.value.body).value
              && Run(rs).fetchedAt == (if rs[k].now != -1 then rs[k].now else 1)
  {
    hide Refreshes, Handle, SteadyFrom, ParseCatalog;
    if rs == [] {
      k := -1;
      SteadyEmpty(rs);
    } else {
      var n := |rs| - 1;
      var before := rs[..n];
      k := CatalogIsLastRefresh(before);
      CatalogStep(Run(before), rs[n]);
      if Refreshes(Run(before), rs[n]) {
        k := n;
        SteadyEmpty(rs);
      } else {
        SteadyStep(rs, k + 1);
        if k >= 0 {
          assert before[..k] == rs[..k] && before[k] == rs[k];
        }
      }
    }
  }

  // ----- the download cache --------------------------------------------------------------------------------------

  /** What the request stores in the cache, in terms of the catalogue it works with and the answers it gets. */
  ghost predicate Stores(c: State, r: Request, path: seq<byte>, body: seq<byte>)
  {
    && r.NeedDownload? && Safe(r.packageId) && Safe(r.downloadId)
    && EnsureCatalog(c, r.now, r.http).1 == STATUS_OK
    && var t := Resolve(EnsureCatalog(c, r.now, r.http).0, r.packageId, r.downloadId);
       && t.Target? && t.path == path && c.path != Some(path)
       && ((Good(r.first) && body == r.first.body)
           || (!Good(r.first) && r.first.status == 409 && Good(r.second) && body == r.second.body
               && Retries(t, r.first)))
  }

  ghost predicate StoresNothing(c: State, r: Request) { forall path, body :: !Stores(c, r, path, body) }

  lemma CatalogKeepsDownload(c: State, now: int, http: Option<Fetch>)
    ensures var d := EnsureCatalog(c, now, http).0; d.path == c.path && d.data == c.data
  {
  }

  /** A request changes the cache exactly when it stores a successful answer under its canonical path; every failed
      fetch leaves it as it was. */
  lemma DownloadStep(c: State, r: Request)
    ensures var d := Handle(c, r).0;
            || (d.path == c.path && d.data == c.data && StoresNothing(c, r))
            || (d.path.Some? && Stores(c, r, d.path.value, d.data) && Handle(c, r).1 == STATUS_OK)
  {
    hide Canonical, Disambiguated, FindPackage, FindDownload, Safe, ParseCatalog;
    CatalogKeepsDownload(c, r.now, r.http);
  }

  /** The requests from number `from` on store nothing. */
  ghost predicate QuietFrom(rs: seq<Request>, from: nat)
  {
    forall j | from <= j < |rs| :: StoresNothing(Run(rs[..j]), rs[j])
  }

  lemma QuietStep(rs: seq<Request>, from: nat)
    requires rs != [] && QuietFrom(rs[..|rs| - 1], from) && StoresNothing(Run(rs[..|rs| - 1]), rs[|rs| - 1])
    ensures QuietFrom(rs, from)
  {
    hide StoresNothing, Run;
    var before := rs[..|rs| - 1];
    forall j | from <= j < |rs|
      ensures StoresNothing(Run(rs[..j]), rs[j])
    {
      if j < |before| {
        assert before[..j] == rs[..j] && before[j] == rs[j];
      }
    }
  }

  /** In every run the cached download is the body of the last successful fetch, direct or after the 409 retry, for
      the path it is stored under: the one made by request `k`, after which nothing was stored. */
  lemma {:induction false} DownloadIsLastFetch(rs: seq<Request>) returns (k: int)
    ensures -1 <= k < |rs| && QuietFrom(rs, k + 1)
    ensures k == -1 ==> Run(rs).path == None && Run(rs).data == []
    ensures k >= 0 ==> Run(rs).path.Some? && Stores(Run(rs[..k]), rs[k], Run(rs).path.value, Run(rs).data)
  {
    hide Stores, StoresNothing, Handle, QuietFrom;
    if rs == [] {
      k := -1;
      QuietEmpty(rs);
    } else {
      var n := |rs| - 1;
      var before := rs[..n];
      k := DownloadIsLastFetch(before);
      DownloadStep(Run(before), rs[n]);
      if Run(rs).path.Some? && Stores(Run(before), rs[n], Run(rs).path.value, Run(rs).data) {
        k := n;
        QuietEmpty(rs);
      } else {
        QuietStep(rs, k + 1);
        if k >= 0 {
          assert before[..k] == rs[..k] && before[k] == rs[k];
        }
      }
    }
  }

  lemma QuietEmpty(rs: seq<Request>)
    ensures QuietFrom(rs, |rs|)
  {
  }

  // ----- chunks --------------------------------------------------------------------------------------------------

  /** The answer to DOWNLOAD once the download is cached. */
  function ChunkAnswer(opcode: byte, data: seq<byte>, offset: u32, maximum: byte, capacity: nat): (b: seq<byte>)
    requires opcode < 0x80 && capacity >= 2
    ensures |b| <= capacity
  {
    if capacity < DOWNLOAD_HEADER then [opcode + RESPONSE_BIT, STATUS_BAD_REQUEST]
    else if |data| > 0xFFFF_FFFF then [opcode + RESPONSE_BIT, STATUS_TOO_LARGE]
    else if offset > |data| then [opcode + RESPONSE_BIT, STATUS_BAD_REQUEST]
    else
      var n := PartSize(DOWNLOAD_HEADER, |data| - offset, maximum, capacity);
      ([opcode + RESPONSE_BIT, STATUS_OK] + WriteU32(offset) + WriteU32(|data|) + [n]) + data[offset..offset + n]
  }

  /** The fields squid_client_retro_download hands to its caller, or None for an error. */
  datatype Chunk = Chunk(offset: u32, total: u32, data: seq<byte>)

  function ReadChunk(opcode: byte, b: seq<byte>): Option<Chunk>
    requires opcode < 0x80
  {
    if |b| < 2 || b[0] != opcode + RESPONSE_BIT || b[1] != STATUS_OK || |b| < DOWNLOAD_HEADER
       || |b| != DOWNLOAD_HEADER + b[10] then None
    else Some(Chunk(ReadU32(b, 2), ReadU32(b, 6), b[DOWNLOAD_HEADER..]))
  }

  lemma ChunkReadBack(opcode: byte, data: seq<byte>, offset: u32, maximum: byte, capacity: nat)
    requires opcode < 0x80 && capacity >= DOWNLOAD_HEADER && offset <= |data| <= 0xFFFF_FFFF
    ensures var n := PartSize(DOWNLOAD_HEADER, |data| - offset, maximum, capacity);
            ReadChunk(opcode, ChunkAnswer(opcode, data, offset, maximum, capacity))
            == Some(Chunk(offset, |data|, data[offset..offset + n]))
  {
    hide ReadU32, WriteU32, PartSize;
    var n := PartSize(DOWNLOAD_HEADER, |data| - offset, maximum, capacity);
    var b := ChunkAnswer(opcode, data, offset, maximum, capacity);
    assert b[2..6] == WriteU32(offset) && b[6..10] == WriteU32(|data|) && b[10] == n;
    assert At(b, 2, WriteU32(offset)) && At(b, 6, WriteU32(|data|));
    U32RoundTrip(b, 2, offset);
    U32RoundTrip(b, 6, |data|);
    assert b[DOWNLOAD_HEADER..] == data[offset..offset + n];
  }

  /** A client that starts at `offset` and goes on where each chunk ended, with any limit per request, until it has
      the announced total; None if an answer is refused or stands still. */
  function Collect(opcode: byte, data: seq<byte>, offset: nat, limit: nat -> byte, capacity: nat): Option<seq<byte>>
    requires opcode < 0x80 && capacity >= 2 && offset <= |data| <= 0xFFFF_FFFF
    decreases |data| - offset
  {
    var chunk := ReadChunk(opcode, ChunkAnswer(opcode, data, offset, limit(offset), capacity));
    if chunk.None? || chunk.value.offset != offset then None
    else
      var next := offset + |chunk.value.data|;
      if next == chunk.value.total then Some(chunk.value.data)
      else if next > |data| || next == offset then None
      else
        var rest := Collect(opcode, data, next, limit, capacity);
        if rest.None? then None else Some(chunk.value.data + rest.value)
  }

  /** Chunks read from 0, advancing by the returned length, reassemble exactly the cached download, for every choice
      of limits, whenever a packet has room for the header and one byte. */
  lemma {:induction false} ChunksReassemble(
      opcode: byte, data: seq<byte>, offset: nat, limit: nat -> byte, capacity: nat)
    requires opcode < 0x80 && capacity > DOWNLOAD_HEADER && offset <= |data| <= 0xFFFF_FFFF
    ensures Collect(opcode, data, offset, limit, capacity) == Some(data[offset..])
    decreases |data| - offset
  {
    hide ReadChunk, ChunkAnswer;
    ChunkReadBack(opcode, data, offset, limit(offset), capacity);
    var n := PartSize(DOWNLOAD_HEADER, |data| - offset, limit(offset), capacity);
    if offset + n < |data| {
      ChunksReassemble(opcode, data, offset + n, limit, capacity);
      assert data[offset..] == data[offset..offset + n] + data[offset + n..];
    } else {
      assert data[offset..offset + n] == data[offset..];
    }
  }

  /** With only the header's room nothing is ever carried: the client stands still on every download with
      a body. */
  lemma HeaderOnlyStands(opcode: byte, data: seq<byte>, limit: nat -> byte)
    requires opcode < 0x80 && 0 < |data| <= 0xFFFF_FFFF
    ensures Collect(opcode, data, 0, limit, DOWNLOAD_HEADER) == None
  {
    hide ReadChunk, ChunkAnswer;
    ChunkReadBack(opcode, data, 0, limit(0), DOWNLOAD_HEADER);
  }

  // ----- the context object --------------------------------------------------------------------------------------

  class Context {
    var packages: seq<Package>
    var catalogFetchedAt: int
    const catalogCacheSeconds: nat
    var downloadData: seq<byte>
    var downloadPath: Option<seq<byte>>
    ghost var asked: seq<seq<byte>>

    constructor ()
      ensures View() == Initial && asked == []
    {
      packages, catalogFetchedAt, catalogCacheSeconds, downloadData, downloadPath := [], 0, 3600, [], None;
      asked := [];
    }

    ghost function View(): State
      reads this
    {
      State(packages, catalogFetchedAt, catalogCacheSeconds, downloadData, downloadPath)
    }

    method RefreshCatalog(now: int, http: Option<Fetch>) returns (status: byte)
      modifies this`packages, this`catalogFetchedAt, this`asked
      ensures (View(), status) == EnsureCatalog(old(View()), now, http)
      ensures asked == old(asked) + Urls(old(View()), NeedCatalog(now, http))
    {
      if |packages| > 0 && now != -1 && catalogFetchedAt != 0
         && 0 <= now - catalogFetchedAt < catalogCacheSeconds {
        return STATUS_OK;
      }
      if http.None? {
        return STATUS_API_UNAVAILABLE;
      }
      asked := asked + [CATALOG_URL];
      var response := http.value;
      var parsed: Option<seq<Package>> := None;
      if response.result.HttpOk? && response.status >= 200 && response.status < 300 {
        parsed := ReadCatalog(response.body);
      }
      if parsed.None? {
        if |packages| > 0 {
          return STATUS_OK;
        }
        if response.result.HttpOk? {
          return if response.status == 404 then STATUS_NOT_FOUND else STATUS_INTERNAL_ERROR;
        }
        return HttpStatus(response);
      }
      packages := parsed.value;
      catalogFetchedAt := if now != -1 then now else 1;
      return STATUS_OK;
    }

    method FetchDownload(r: Request) returns (status: byte)
      requires r.NeedDownload?
      modifies this
      ensures (View(), status) == EnsureDownload(old(View()), r) && asked == old(asked) + Urls(old(View()), r)
    {
      hide ParseCatalog, Canonical, Disambiguated, Fresh, EnsureCatalog, Retries, Deciding, Good, HttpStatus;
      var packageSafe := IdentifierIsSafe(r.packageId);
      var downloadSafe := IdentifierIsSafe(r.downloadId);
      if !packageSafe || !downloadSafe {
        return STATUS_BAD_REQUEST;
      }
      status := RefreshCatalog(r.now, r.http);
      if status != STATUS_OK {
        return;
      }
      var package := SearchPackages(packages, r.packageId);
      if package.None? {
        return STATUS_NOT_FOUND;
      }
      var download := SearchDownloads(package.value.downloads, r.downloadId);
      if download.None? {
        return STATUS_NOT_FOUND;
      }
      var path := Canonical(package.value, download.value.id);
      if path.None? {
        return STATUS_INTERNAL_ERROR;
      }
      if downloadPath == path {
        return STATUS_OK;
      }
      status := FetchTarget(Target(package.value, download.value, path.value), r);
    }

    /** The fetch from the canonical path, and after a conflict from the path with the query. */
    method FetchTarget(t: Target, r: Request) returns (status: byte)
      requires r.NeedDownload? && t.Target?
      modifies this`downloadData, this`downloadPath, this`asked
      ensures var f := Deciding(t, r.first, r.second);
              if Good(f) then status == STATUS_OK && downloadData == f.body && downloadPath == Some(t.path)
              else status == HttpStatus(f) && downloadData == old(downloadData) && downloadPath == old(downloadPath)
      ensures asked == old(asked) + if Retries(t, r.first) then [t.path, Disambiguated(t.package, t.download.id).value]
                                    else [t.path]
    {
      hide Disambiguated;
      asked := asked + [t.path];
      var response := r.first;
      if !Good(response) && response.status == 409 {
        var disambiguated := Disambiguated(t.package, t.download.id);
        if disambiguated.Some? && disambiguated.value != t.path {
          asked := asked + [disambiguated.value];
          response := r.second;
        }
      }
      if !Good(response) {
        return HttpStatus(response);
      }
      downloadData, downloadPath := response.body, Some(t.path);
      return STATUS_OK;
    }

    /** The part of handle_download after the request is decoded: the chunk, or the two bytes of an error. */
    method HandleDownload(opcode: byte, r: Request, offset: u32, maximum: byte, response: array<byte>)
      returns (size: int)
      requires r.NeedDownload? && opcode < 0x80 && 2 <= response.Length <= PACKET_MAX
      modifies this, response
      ensures var (c, status) := EnsureDownload(old(View()), r);
              && View() == (if response.Length < DOWNLOAD_HEADER then old(View()) else c)
              && var b := if response.Length < DOWNLOAD_HEADER then [opcode + RESPONSE_BIT, STATUS_BAD_REQUEST]
                          else if status != STATUS_OK then [opcode + RESPONSE_BIT, status]
                          else ChunkAnswer(opcode, c.data, offset, maximum, response.Length);
                 size == |b| && size <= response.Length && response[..size] == b
    {
      hide EnsureDownload, ChunkAnswer;
      if response.Length < DOWNLOAD_HEADER {
        size := WriteError(opcode, STATUS_BAD_REQUEST, response);
        return;
      }
      var status := FetchDownload(r);
      if status != STATUS_OK {
        size := WriteError(opcode, status, response);
        return;
      }
      size := SendChunk(opcode, offset, maximum, response);
    }

    /** The chunk of the cached download, or the error that refuses it. */
    method SendChunk(opcode: byte, offset: u32, maximum: byte, response: array<byte>) returns (size: int)
      requires opcode < 0x80 && DOWNLOAD_HEADER <= response.Length <= PACKET_MAX
      modifies response
      ensures var b := ChunkAnswer(opcode, downloadData, offset, maximum, response.Length);
              size == |b| && size <= response.Length && response[..size] == b
    {
      hide WriteU32, PartSize;
      if |downloadData| > 0xFFFF_FFFF {
        size := WriteError(opcode, STATUS_TOO_LARGE, response);
        return;
      }
      if offset > |downloadData| {
        size := WriteError(opcode, STATUS_BAD_REQUEST, response);
        return;
      }
      var dataSize := ChunkSize(|downloadData| - offset, maximum, response.Length);
      var head := [opcode + RESPONSE_BIT, STATUS_OK] + WriteU32(offset) + WriteU32(|downloadData|) + [dataSize];
      CopyBoth(response, head, downloadData[offset..offset + dataSize]);
      size := DOWNLOAD_HEADER + dataSize;
    }
  }

  /** The size of a chunk in a packet of `capacity` bytes when `available` bytes are left. */
  method ChunkSize(available: nat, maximum: byte, capacity: nat) returns (size: nat)
    requires DOWNLOAD_HEADER <= capacity
    ensures size == PartSize(DOWNLOAD_HEADER, available, maximum, capacity)
  {
    size := capacity - DOWNLOAD_HEADER;
    if maximum > 0 && size > maximum {
      size := maximum;
    }
    if size > 255 {
      size := 255;
    }
    if size > available {
      size := available;
    }
  }
}
