/** Retro Vault packages, and which of them a LIST or SEARCH request selects. */
module Catalog {
  import opened Bytes

  const STATUS_OK: byte := 0
  const STATUS_BAD_REQUEST: byte := 1
  const STATUS_API_UNAVAILABLE: byte := 2
  const STATUS_NOT_FOUND: byte := 3
  const STATUS_TOO_LARGE: byte := 4
  const STATUS_INTERNAL_ERROR: byte := 5

  const ENTRY_MAX: nat := 249
  const CATALOG_MAX: nat := 0xFFFF

  datatype Download = Download(id: seq<byte>, caption: seq<byte>, format: seq<byte>, size: u32, files: byte)

  datatype Package = Package(
    id: seq<byte>, name: seq<byte>, vendor: seq<byte>, platformId: seq<byte>, platformName: seq<byte>,
    modelId: seq<byte>, modelName: seq<byte>, version: seq<byte>, description: seq<byte>,
    year: u16, rating: byte, downloads: seq<Download>)

  // ----- matching ------------------------------------------------------------------------------------------------

  /** tolower in the C locale. */
  function Lower(c: byte): byte { if 0x41 <= c <= 0x5A then c + 0x20 else c }

  predicate SameText(a: seq<byte>, b: seq<byte>)
  {
    |a| == |b| && forall k | 0 <= k < |a| :: Lower(a[k]) == Lower(b[k])
  }

  method TextEquals(left: seq<byte>, right: seq<byte>) returns (same: bool)
    ensures same <==> SameText(left, right)
  {
    if |left| != |right| {
      return false;
    }
    for i := 0 to |right|
      invariant forall k | 0 <= k < i :: Lower(left[k]) == Lower(right[k])
    {
      if Lower(left[i]) != Lower(right[i]) {
        return false;
      }
    }
    return true;
  }

  predicate OccursAt(text: seq<byte>, query: seq<byte>, start: nat)
  {
    start + |query| <= |text| && SameText(text[start..start + |query|], query)
  }

  /** Some stretch of the text equals the query up to letter case; an empty query matches nothing. */
  predicate Contains(text: seq<byte>, query: seq<byte>)
  {
    query != [] && exists start: nat | start <= |text| :: OccursAt(text, query, start)
  }

  method TextContains(text: seq<byte>, query: seq<byte>) returns (found: bool)
    ensures found <==> Contains(text, query)
  {
    if query == [] || |query| > |text| {
      return false;
    }
    var start := 0;
    while start <= |text| - |query|
      invariant 0 <= start <= |text| - |query| + 1
      invariant forall p: nat | p < start :: !OccursAt(text, query, p)
    {
      var index := 0;
      while index < |query| && Lower(text[start + index]) == Lower(query[index])
        invariant index <= |query|
        invariant forall k | 0 <= k < index :: Lower(text[start + k]) == Lower(query[k])
      {
        index := index + 1;
      }
      if index == |query| {
        assert OccursAt(text, query, start);
        return true;
      }
      assert Lower(text[start..start + |query|][index]) != Lower(query[index]);
      start := start + 1;
    }
    return false;
  }

  const IDP: seq<byte> := Ascii("idp")
  const ISKRA: seq<byte> := Ascii("iskra-delta-partner")
  const ZXS: seq<byte> := Ascii("zxs")
  const SPECTRUM: seq<byte> := Ascii("zx-spectrum")

  predicate Alias(text: seq<byte>, canonical: seq<byte>, legacy: seq<byte>)
  {
    SameText(canonical, text) || SameText(legacy, text)
  }

  predicate PlatformMatches(platform: seq<byte>, filter: seq<byte>)
  {
    || SameText(platform, filter)
    || (Alias(platform, IDP, ISKRA) && Alias(filter, IDP, ISKRA))
    || (Alias(platform, ZXS, SPECTRUM) && Alias(filter, ZXS, SPECTRUM))
  }

  datatype Filter = Filter(platform: seq<byte>, model: seq<byte>, query: seq<byte>)

  predicate Matches(p: Package, f: Filter)
  {
    && (f.platform == [] || PlatformMatches(p.platformId, f.platform))
    && (f.model == [] || SameText(p.modelId, f.model))
    && (f.query == [] || Contains(p.id, f.query) || Contains(p.name, f.query)
        || Contains(p.vendor, f.query) || Contains(p.description, f.query))
  }

  lemma SameTextEquivalence(a: seq<byte>, b: seq<byte>, c: seq<byte>)
    ensures SameText(a, a) && (SameText(a, b) <==> SameText(b, a))
    ensures SameText(a, b) && SameText(b, c) ==> SameText(a, c)
  {
  }

  /** A platform filter selects a class of spellings: matching does not depend on which spelling of the platform the
      catalogue or the client uses. */
  lemma PlatformSpelling(platform: seq<byte>, filter: seq<byte>)
    ensures PlatformMatches(platform, filter) == PlatformMatches(filter, platform)
    ensures forall other :: PlatformMatches(platform, other) && PlatformMatches(other, filter) ==>
                              PlatformMatches(platform, filter)
  {
    SameTextEquivalence(platform, filter, platform);
    forall other | PlatformMatches(platform, other) && PlatformMatches(other, filter)
      ensures PlatformMatches(platform, filter)
    {
      SameTextEquivalence(platform, other, filter);
      SameTextEquivalence(IDP, platform, other);
      SameTextEquivalence(ISKRA, platform, other);
      SameTextEquivalence(ZXS, platform, other);
      SameTextEquivalence(SPECTRUM, platform, other);
      SameTextEquivalence(IDP, other, filter);
      SameTextEquivalence(ISKRA, other, filter);
      SameTextEquivalence(ZXS, other, filter);
      SameTextEquivalence(SPECTRUM, other, filter);
      SameTextEquivalence(filter, other, platform);
      assert |IDP| == 3 && |ISKRA| == 19 && |SPECTRUM| == 11;
      assert Lower(IDP[0]) != Lower(ZXS[0]);
    }
  }

  function Select(ps: seq<Package>, f: Filter): (r: seq<Package>)
    ensures |r| <= |ps|
  {
    if ps == [] then []
    else Select(ps[..|ps| - 1], f) + (if Matches(ps[|ps| - 1], f) then [ps[|ps| - 1]] else [])
  }

  lemma {:induction false} SelectAppend(a: seq<Package>, b: seq<Package>, f: Filter)
    ensures Select(a + b, f) == Select(a, f) + Select(b, f)
  {
    hide Matches;
    if b == [] {
      assert a + b == a;
    } else {
      var c := b[..|b| - 1];
      assert (a + b)[..|a + b| - 1] == a + c;
      SelectAppend(a, c, f);
    }
  }
}
