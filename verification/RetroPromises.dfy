/** What the two caches promise, in terms of clock readings, answers, addresses and status codes only. */
module RetroPromises {
  import opened Bytes
  import opened Catalog
  import opened CatalogParse
  import opened DownloadPath
  import opened RetroContext

  // ----- how old the catalogue can be -----------------------------------------------------------------------------

  /** A catalogue and the time it is stamped with. */
  datatype Held = Held(packages: seq<Package>, at: int)

  /** The request looks at the catalogue. */
  predicate Looks(r: Request) { r.NeedDownload? ==> Safe(r.packageId) && Safe(r.downloadId) }

  /** There is nothing to show, no time to compare with, or the stamp lies in the future or an hour or more back. A
      catalogue fetched in the second 0 counts as never fetched. */
  predicate Expired(held: Option<Held>, now: int)
  {
    || held.None? || held.value.packages == [] || now == -1
    || held.value.at == 0 || held.value.at > now || now >= held.value.at + 3600
  }

  /** The catalogue after a run: every request that looks at it when it has expired, and gets a usable response, takes
      that response over. Without a clock the stamp is 1. */
  function Expected(rs: seq<Request>): Option<Held>
  {
    if rs == [] then None
    else
      var before, r := Expected(rs[..|rs| - 1]), rs[|rs| - 1];
      if Looks(r) && Expired(before, r.now) && Usable(r.http) then
        Some(Held(ParseCatalog(r.http.value.body).value, if r.now == -1 then 1 else r.now))
      else before
  }

  /** The caches hold this catalogue with this stamp. */
  predicate Holds(c: State, held: Option<Held>)
  {
    c.seconds == 3600
    && if held.None? then c.packages == [] && c.fetchedAt == 0
       else c.packages == held.value.packages && c.fetchedAt == held.value.at
  }

  lemma ExpiredIsNotFresh(c: State, held: Option<Held>, now: int)
    requires Holds(c, held)
    ensures Fresh(c, now) <==> !Expired(held, now)
  {
  }

  /** In every run the plugin refreshes its catalogue exactly when it has expired and a usable response is there. */
  lemma {:induction false} CatalogAsExpected(rs: seq<Request>)
    ensures Holds(Run(rs), Expected(rs))
  {
    hide ParseCatalog;
    if rs != [] {
      var n := |rs| - 1;
      CatalogAsExpected(rs[..n]);
      ExpiredIsNotFresh(Run(rs[..n]), Expected(rs[..n]), rs[n].now);
      CatalogStep(Run(rs[..n]), rs[n]);
      SecondsStay(Run(rs[..n]), rs[n]);
      hide Run, Expected, Handle, Fresh, Expired, Safe, Usable;
      RunStep(rs);
      ExpectedStep(rs);
    }
  }

  lemma RunStep(rs: seq<Request>)
    requires rs != []
    ensures Run(rs) == Handle(Run(rs[..|rs| - 1]), rs[|rs| - 1]).0
  {
  }

  lemma ExpectedStep(rs: seq<Request>)
    requires rs != []
    ensures var before, r := Expected(rs[..|rs| - 1]), rs[|rs| - 1];
            Expected(rs)
            == if Looks(r) && Expired(before, r.now) && Usable(r.http) then
                 Some(Held(ParseCatalog(r.http.value.body).value, if r.now == -1 then 1 else r.now))
               else before
  {
    hide ParseCatalog;
  }

  lemma SecondsStay(c: State, r: Request)
    ensures Handle(c, r).0.seconds == c.seconds
  {
    hide ParseCatalog, Resolve, Deciding, Safe, Fresh;
  }

  /** While HTTP works, what a request is answered from is less than an hour old: after every request that looks at the
      catalogue and could refresh it, the stamp is at most 3599 seconds back, or the clock is unreadable and the
      catalogue has just been fetched. */
  lemma NeverStale(rs: seq<Request>, r: Request)
    requires Looks(r) && Usable(r.http)
    ensures var c := Run(rs + [r]);
            if r.now == -1 then c.packages == ParseCatalog(r.http.value.body).value
            else 0 <= r.now - c.fetchedAt < 3600
  {
    hide ParseCatalog, Run, Looks, Usable;
    CatalogAsExpected(rs);
    CatalogAsExpected(rs + [r]);
    assert (rs + [r])[..|rs|] == rs;
    hide Expected;
    ExpectedStep(rs + [r]);
  }

  // ----- which download a request names ---------------------------------------------------------------------------

  /** `p` is the first package with the identifier. */
  ghost predicate Leads(ps: seq<Package>, id: seq<byte>, p: Package)
  {
    exists k: nat :: FirstPackage(ps, id, k) && ps[k] == p
  }

  lemma LeadsIsFound(ps: seq<Package>, id: seq<byte>, p: Package)
    ensures Leads(ps, id, p) <==> FindPackage(ps, id) == Some(p)
  {
    hide FindPackage, FirstPackage;
    FindPackageExactly(ps, id);
  }

  /** The first package with the identifier has, as its first download with the identifier, `d`. */
  ghost predicate Names(ps: seq<Package>, packageId: seq<byte>, downloadId: seq<byte>, p: Package, d: Download)
  {
    && Leads(ps, packageId, p)
    && (exists j: nat :: FirstDownload(p.downloads, downloadId, j) && p.downloads[j] == d)
  }

  /** A request names a download exactly when there is a first package and in it a first download with these
      identifiers, up to letter case, and its path is safe and shorter than 768 bytes. */
  lemma ResolveExactly(
      c: State, packageId: seq<byte>, downloadId: seq<byte>, p: Package, d: Download, path: seq<byte>)
    ensures Resolve(c, packageId, downloadId) == Target(p, d, path)
            <==> && Names(c.packages, packageId, downloadId, p, d)
                 && Safe(p.id) && Safe(d.id) && path == CanonicalText(p, d.id) && |path| < 768
  {
    hide FindPackage, FindDownload, Canonical, FirstPackage, FirstDownload, Safe, CanonicalText, Disambiguated,
         DisambiguatedText;
    FindPackageExactly(c.packages, packageId);
    var found := FindPackage(c.packages, packageId);
    if found.Some? {
      FindDownloadExactly(found.value.downloads, downloadId);
    }
    PathsSpelled(p, d.id);
  }

  /** Otherwise it is refused: NOT_FOUND when there is no such package or download, INTERNAL_ERROR when the path of the
      one there is cannot be built. */
  lemma ResolveRefuses(c: State, packageId: seq<byte>, downloadId: seq<byte>)
    requires Resolve(c, packageId, downloadId).Refused?
    ensures var status := Resolve(c, packageId, downloadId).status;
            && (status == 3 || status == 5)
            && (status == 3 <==> forall p, d :: !Names(c.packages, packageId, downloadId, p, d))
  {
    hide FindPackage, FindDownload, Canonical, FirstPackage, FirstDownload;
    FindPackageExactly(c.packages, packageId);
    var found := FindPackage(c.packages, packageId);
    if found.Some? {
      FindDownloadExactly(found.value.downloads, downloadId);
      var download := FindDownload(found.value.downloads, downloadId);
      if download.Some? {
        assert Names(c.packages, packageId, downloadId, found.value, download.value);
      }
    }
  }

  // ----- the conflict ---------------------------------------------------------------------------------------------

  /** A conflict is answered by a second question exactly when the platform is a safe identifier and the address with
      the query is shorter than 768 bytes. Then a good second answer is stored under the canonical path; otherwise the
      conflict stands, and the cache stays as it was. */
  lemma ConflictExactly(c: State, r: Request, p: Package, d: Download, path: seq<byte>)
    requires r.NeedDownload? && Looks(r) && EnsureCatalog(c, r.now, r.http).1 == STATUS_OK
    requires Resolve(EnsureCatalog(c, r.now, r.http).0, r.packageId, r.downloadId) == Target(p, d, path)
    requires c.path != Some(path) && r.first.status == 409 && Good(r.second)
    ensures var (e, status) := EnsureDownload(c, r);
            if Safe(p.platformId) && |DisambiguatedText(p, d.id)| < 768 then
              && status == 0 && e.path == Some(path) && e.data == r.second.body
              && Urls(c, r)
                 == Urls(c, NeedCatalog(r.now, r.http)) + [CanonicalText(p, d.id), DisambiguatedText(p, d.id)]
            else
              && status == (if r.first.result.HttpTooLarge? then 4 else 3) && e.path == c.path && e.data == c.data
              && Urls(c, r) == Urls(c, NeedCatalog(r.now, r.http)) + [CanonicalText(p, d.id)]
  {
    hide ParseCatalog, FindPackage, FindDownload, CanonicalText, DisambiguatedText, Safe, Fresh, EnsureCatalog;
    CatalogKeepsDownload(c, r.now, r.http);
    PathsSpelled(p, d.id);
    PathsDiffer(p, d.id);
  }

  // ----- status codes ---------------------------------------------------------------------------------------------

  /** OK 0, BAD_REQUEST 1, API_UNAVAILABLE 2, NOT_FOUND 3, TOO_LARGE 4, INTERNAL_ERROR 5: an answer is good when HTTP
      went through with a status of the two hundreds, and every other answer has its code. */
  lemma AnswerCodes(f: Fetch)
    ensures Good(f) <==> f.result == HttpOk && f.status / 100 == 2
    ensures HttpStatus(f) == 4 <==> f.result == HttpTooLarge
    ensures HttpStatus(f) == 3 <==> f.result != HttpTooLarge && f.status in {404, 409}
    ensures HttpStatus(f) == 2 <==> f.result != HttpTooLarge && f.status !in {404, 409}
  {
  }

  /** The code of a look at the catalogue: 0 with a fresh, new or old catalogue; without one the reason. */
  lemma CatalogCodes(c: State, now: int, http: Option<Fetch>)
    requires !Fresh(c, now) && !Usable(http)
    ensures EnsureCatalog(c, now, http).0 == c
    ensures EnsureCatalog(c, now, http).1
            == if http.None? then 2
               else if c.packages != [] then 0
               else match http.value.result
                    case HttpOk => if http.value.status == 404 then 3 else 5
                    case HttpTooLarge => 4
                    case HttpError => if http.value.status in {404, 409} then 3 else 2
  {
    hide ParseCatalog;
  }

  /** The code of a download that is not answered from the cache: 1 for identifiers that are not safe, the code of the
      catalogue, that of the refusal, or that of the answer that decides. */
  lemma DownloadCodes(c: State, r: Request)
    requires r.NeedDownload?
    ensures !Looks(r) ==> EnsureDownload(c, r) == (c, 1)
    ensures Looks(r) && EnsureCatalog(c, r.now, r.http).1 != 0 ==>
              EnsureDownload(c, r) == EnsureCatalog(c, r.now, r.http)
    ensures Looks(r) && EnsureCatalog(c, r.now, r.http).1 == 0 ==>
              var d := EnsureCatalog(c, r.now, r.http).0;
              match Resolve(d, r.packageId, r.downloadId)
              case Refused(status) => EnsureDownload(c, r) == (d, status)
              case Target(p, e, path) =>
                && (c.path == Some(path) ==>
                      EnsureDownload(c, r) == (d, 0) && Urls(c, r) == Urls(c, NeedCatalog(r.now, r.http)))
                && (c.path != Some(path) && r.first.status != 409 ==>
                      && Urls(c, r) == Urls(c, NeedCatalog(r.now, r.http)) + [path]
                      && EnsureDownload(c, r)
                         == if Good(r.first) then (d.(data := r.first.body, path := Some(path)), 0)
                            else (d, HttpStatus(r.first)))
  {
    hide ParseCatalog, FindPackage, FindDownload, Canonical, Disambiguated, Safe, EnsureCatalog, Resolve, HttpStatus;
    CatalogKeepsDownload(c, r.now, r.http);
  }

  /** The codes of a chunk that is refused. */
  lemma ChunkCodes(opcode: byte, data: seq<byte>, offset: u32, maximum: byte, capacity: nat)
    requires opcode < 0x80 && capacity >= 2
    ensures var b := ChunkAnswer(opcode, data, offset, maximum, capacity);
            && b[0] == opcode + 0x80
            && b[1] == if capacity < 11 then 1
                       else if |data| >= 0x1_0000_0000 then 4
                       else if offset > |data| then 1
                       else 0
  {
  }
}
