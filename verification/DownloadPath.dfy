/** The API paths of downloads, which also are the keys of the download cache. */
module DownloadPath {
  import opened Bytes
  import opened Paths
  import opened Catalog
  import opened CatalogQueries

  const PATH_MAX: nat := 768

  const API: seq<byte> := Ascii("api")
  const V1: seq<byte> := Ascii("v1")
  const CATALOG: seq<byte> := Ascii("catalog")
  const PACKAGES: seq<byte> := Ascii("packages")
  const DOWNLOADS: seq<byte> := Ascii("downloads")
  const PLATFORM_QUERY: seq<byte> := Ascii("?platformId=")
  const MODEL_QUERY: seq<byte> := Ascii("&modelId=")

  predicate SafeChar(c: byte)
  {
    0x61 <= c <= 0x7A || 0x41 <= c <= 0x5A || 0x30 <= c <= 0x39 || c == 0x2D || c == 0x5F
  }

  /** identifier_is_safe. */
  predicate Safe(text: seq<byte>) { text != [] && forall k | 0 <= k < |text| :: SafeChar(text[k]) }

  /** Letters, digits, hyphen and underscore. */
  lemma SafeBytes(c: byte)
    ensures SafeChar(c) <==> c in UPPER || c in LOWER || c in Ascii("0123456789-_")
  {
    assert Ascii("0123456789-_") == [0x30, 0x31, 0x32, 0x33, 0x34, 0x35, 0x36, 0x37, 0x38, 0x39, 0x2D, 0x5F];
    hide Ascii;
    if 0x41 <= c <= 0x5A {
      LetterPair(c - 0x41);
    } else if 0x61 <= c <= 0x7A {
      LetterPair(c - 0x61);
    }
    forall k | 0 <= k < 26
      ensures SafeChar(UPPER[k]) && SafeChar(LOWER[k])
    {
      LetterPair(k);
    }
  }

  method IdentifierIsSafe(text: seq<byte>) returns (safe: bool)
    ensures safe <==> Safe(text)
  {
    if text == [] {
      return false;
    }
    for i := 0 to |text|
      invariant forall k | 0 <= k < i :: SafeChar(text[k])
    {
      if !SafeChar(text[i]) {
        return false;
      }
    }
    return true;
  }

  /** The platform and model segments: none, the platform, or both. Unsafe identifiers are left out. */
  function Place(p: Package): (r: seq<seq<byte>>)
    ensures |r| <= 2 && forall k | 0 <= k < |r| :: Safe(r[k])
  {
    if !Safe(p.platformId) then []
    else if !Safe(p.modelId) then [p.platformId]
    else [p.platformId, p.modelId]
  }

  function Segments(place: seq<seq<byte>>, id: seq<byte>, download: seq<byte>): (r: seq<seq<byte>>)
    ensures |r| == 8 + |place|
  {
    [[], API, V1, CATALOG, PACKAGES] + place + [id, DOWNLOADS, download]
  }

  function Fits(path: seq<byte>): Option<seq<byte>> { if |path| < PATH_MAX then Some(path) else None }

  /** build_download_path without disambiguation. */
  function Canonical(p: Package, download: seq<byte>): Option<seq<byte>>
  {
    if !Safe(p.id) || !Safe(download) then None
    else Fits(Join(Segments(Place(p), p.id, download), SEPARATOR))
  }

  /** build_download_path with disambiguation: the platform and model go into the query. */
  function Disambiguated(p: Package, download: seq<byte>): Option<seq<byte>>
  {
    if !Safe(p.id) || !Safe(download) then None
    else
      var place := Place(p);
      Fits(Join(Segments([], p.id, download), SEPARATOR)
           + (if |place| > 0 then PLATFORM_QUERY + place[0] else [])
           + (if |place| > 1 then MODEL_QUERY + place[1] else []))
  }

  lemma SafeIsFree(text: seq<byte>)
    requires Safe(text)
    ensures Free(text, SEPARATOR)
  {
  }

  lemma SegmentsFree(place: seq<seq<byte>>, id: seq<byte>, download: seq<byte>)
    requires (forall k | 0 <= k < |place| :: Safe(place[k])) && Safe(id) && Safe(download)
    ensures forall k | 0 <= k < 8 + |place| :: Free(Segments(place, id, download)[k], SEPARATOR)
  {
    var r := Segments(place, id, download);
    SafeIsFree(id);
    SafeIsFree(download);
    forall k | 0 <= k < |r|
      ensures Free(r[k], SEPARATOR)
    {
      if 5 <= k < 5 + |place| {
        SafeIsFree(place[k - 5]);
      }
    }
  }

  /** A cache key belongs to one download only: equal paths mean the same identifiers, platform and model. */
  lemma CanonicalInjective(p: Package, d: seq<byte>, q: Package, e: seq<byte>)
    requires Canonical(p, d).Some? && Canonical(p, d) == Canonical(q, e)
    ensures p.id == q.id && d == e && Place(p) == Place(q)
  {
    var a, b := Segments(Place(p), p.id, d), Segments(Place(q), q.id, e);
    SegmentsFree(Place(p), p.id, d);
    SegmentsFree(Place(q), q.id, e);
    SplitJoin(a, SEPARATOR);
    SplitJoin(b, SEPARATOR);
    assert a == b;
    var n := |Place(p)|;
    assert |Place(q)| == n;
    assert a[5 + n] == p.id && b[5 + n] == q.id && a[7 + n] == d && b[7 + n] == e;
    assert Place(p) == a[5..5 + n] && Place(q) == b[5..5 + n];
  }

  // ----- the texts, spelled out -----------------------------------------------------------------------------------

  /** Platform and model as path segments, in front of the identifier. */
  function PlaceText(p: Package): seq<byte>
  {
    if !Safe(p.platformId) then []
    else p.platformId + Ascii("/") + (if Safe(p.modelId) then p.modelId + Ascii("/") else [])
  }

  /** Platform and model as a query, behind the path. */
  function QueryText(p: Package): seq<byte>
  {
    if !Safe(p.platformId) then []
    else Ascii("?platformId=") + p.platformId + (if Safe(p.modelId) then Ascii("&modelId=") + p.modelId else [])
  }

  const CATALOG_TEXT: seq<byte> := Ascii("/api/v1/") + Ascii("catalog/packages/")

  /** The path with the platform and model in front of the identifier, which is the cache key and is asked first. */
  function CanonicalText(p: Package, download: seq<byte>): seq<byte>
  {
    CATALOG_TEXT + (PlaceText(p) + (p.id + (Ascii("/downloads/") + download)))
  }

  /** The path with the platform and model in the query, which is asked after a conflict. */
  function DisambiguatedText(p: Package, download: seq<byte>): seq<byte>
  {
    CATALOG_TEXT + (p.id + (Ascii("/downloads/") + download)) + QueryText(p)
  }

  lemma Slash()
    ensures Ascii("/") == [SEPARATOR]
  {
  }

  lemma ApiText()
    ensures Ascii("/api/v1/") == [SEPARATOR] + (API + ([SEPARATOR] + (V1 + [SEPARATOR])))
  {
  }

  lemma PackagesText()
    ensures Ascii("catalog/packages/") == CATALOG + ([SEPARATOR] + (PACKAGES + [SEPARATOR]))
  {
  }

  lemma DownloadsText()
    ensures Ascii("/downloads/") == [SEPARATOR] + (DOWNLOADS + [SEPARATOR])
  {
  }

  lemma QueryNames()
    ensures PLATFORM_QUERY == Ascii("?platformId=") && MODEL_QUERY == Ascii("&modelId=")
  {
  }

  lemma JoinTwo(a: seq<byte>, rest: seq<seq<byte>>)
    requires rest != []
    ensures Join([a] + rest, SEPARATOR) == a + ([SEPARATOR] + Join(rest, SEPARATOR))
  {
    assert ([a] + rest)[1..] == rest;
  }

  lemma JoinTail(id: seq<byte>, download: seq<byte>)
    ensures Join([id, DOWNLOADS, download], SEPARATOR) == id + (Ascii("/downloads/") + download)
  {
    hide Join;
    DownloadsText();
    JoinTwo(DOWNLOADS, [download]);
    JoinTwo(id, [DOWNLOADS] + [download]);
    JoinOne(download);
    assert [id] + ([DOWNLOADS] + [download]) == [id, DOWNLOADS, download];
    Associate([SEPARATOR], DOWNLOADS + [SEPARATOR], download);
    Associate(DOWNLOADS, [SEPARATOR], download);
  }

  lemma JoinOne(a: seq<byte>)
    ensures Join([a], SEPARATOR) == a
  {
  }

  lemma JoinPlace(p: Package, rest: seq<seq<byte>>)
    requires rest != []
    ensures Join(Place(p) + rest, SEPARATOR) == PlaceText(p) + Join(rest, SEPARATOR)
  {
    hide Join, Safe;
    Slash();
    var j := Join(rest, SEPARATOR);
    if !Safe(p.platformId) {
      assert [] + rest == rest && [] + j == j;
    } else if !Safe(p.modelId) {
      JoinTwo(p.platformId, rest);
      assert p.platformId + [SEPARATOR] + [] == p.platformId + [SEPARATOR];
      Associate(p.platformId, [SEPARATOR], j);
    } else {
      JoinTwo(p.modelId, rest);
      JoinTwo(p.platformId, [p.modelId] + rest);
      assert [p.platformId] + ([p.modelId] + rest) == [p.platformId, p.modelId] + rest;
      assert PlaceText(p) + j == p.platformId + ([SEPARATOR] + (p.modelId + ([SEPARATOR] + j)));
    }
  }

  lemma JoinHead(rest: seq<seq<byte>>)
    requires rest != []
    ensures Join([[], API, V1, CATALOG, PACKAGES] + rest, SEPARATOR) == CATALOG_TEXT + Join(rest, SEPARATOR)
  {
    hide Join;
    ApiText();
    PackagesText();
    var r4 := [PACKAGES] + rest;
    var r3 := [CATALOG] + r4;
    var r2 := [V1] + r3;
    var r1 := [API] + r2;
    JoinTwo(PACKAGES, rest);
    JoinTwo(CATALOG, r4);
    JoinTwo(V1, r3);
    JoinTwo(API, r2);
    JoinTwo([], r1);
    assert [[]] + r1 == [[], API, V1, CATALOG, PACKAGES] + rest;
    HeadText(Join(rest, SEPARATOR));
  }

  lemma HeadText(j: seq<byte>)
    ensures CATALOG_TEXT + j
            == [] + ([SEPARATOR] + (API + ([SEPARATOR] + (V1 + ([SEPARATOR]
               + (CATALOG + ([SEPARATOR] + (PACKAGES + ([SEPARATOR] + j)))))))))
  {
    ApiText();
    PackagesText();
    var a, b := Ascii("/api/v1/"), Ascii("catalog/packages/");
    Associate(a, b, j);
    assert b + j == CATALOG + ([SEPARATOR] + (PACKAGES + ([SEPARATOR] + j)));
    var k := b + j;
    assert a + k == [SEPARATOR] + (API + ([SEPARATOR] + (V1 + ([SEPARATOR] + k))));
  }

  /** The two paths of a download are these texts, when the identifiers are safe and the text is shorter than 768. */
  lemma PathsSpelled(p: Package, download: seq<byte>)
    ensures Canonical(p, download)
            == if Safe(p.id) && Safe(download) && |CanonicalText(p, download)| < 768 then
                 Some(CanonicalText(p, download))
               else None
    ensures Disambiguated(p, download)
            == if Safe(p.id) && Safe(download) && |DisambiguatedText(p, download)| < 768 then
                 Some(DisambiguatedText(p, download))
               else None
  {
    hide Join, Safe;
    var tail := [p.id, DOWNLOADS, download];
    JoinTail(p.id, download);
    JoinPlace(p, tail);
    JoinHead(Place(p) + tail);
    JoinHead(tail);
    assert [[], API, V1, CATALOG, PACKAGES] + Place(p) + tail == [[], API, V1, CATALOG, PACKAGES] + (Place(p) + tail);
    assert [[], API, V1, CATALOG, PACKAGES] + [] + tail == [[], API, V1, CATALOG, PACKAGES] + tail;
    QuerySpelled(p, CATALOG_TEXT + (p.id + (Ascii("/downloads/") + download)));
  }

  lemma QuerySpelled(p: Package, path: seq<byte>)
    ensures var place := Place(p);
            path + (if |place| > 0 then PLATFORM_QUERY + place[0] else [])
            + (if |place| > 1 then MODEL_QUERY + place[1] else [])
            == path + QueryText(p)
  {
    hide Safe;
    QueryNames();
  }

  /** The two paths differ exactly when the platform can be named. */
  lemma PathsDiffer(p: Package, download: seq<byte>)
    requires Canonical(p, download).Some?
    ensures Disambiguated(p, download).Some? && Disambiguated(p, download) != Canonical(p, download)
            <==> Safe(p.platformId) && |DisambiguatedText(p, download)| < 768
  {
    hide Join, Safe;
    PathsSpelled(p, download);
    if !Safe(p.platformId) {
      var rest := p.id + (Ascii("/downloads/") + download);
      assert [] + rest == rest && CATALOG_TEXT + rest + [] == CATALOG_TEXT + rest;
    } else {
      assert |PlaceText(p)| < |QueryText(p)|;
    }
  }
}
