/** What LIST and SEARCH select, in the words of the protocol: letter case, substrings, the two spellings of a platform
    and the four fields a query looks at. */
module CatalogQueries {
  import opened Bytes
  import opened Catalog

  const UPPER: seq<byte> := Ascii("ABCDEFGHIJKLMNOPQRSTUVWXYZ")
  const LOWER: seq<byte> := Ascii("abcdefghijklmnopqrstuvwxyz")

  /** The same byte, or the two cases of one letter. */
  predicate SameLetter(c: byte, d: byte)
  {
    || c == d
    || exists k | 0 <= k < 26 :: (c == UPPER[k] && d == LOWER[k]) || (d == UPPER[k] && c == LOWER[k])
  }

  lemma LetterPair(k: nat)
    requires k < 26
    ensures UPPER[k] == 0x41 + k && LOWER[k] == 0x61 + k
  {
    var upper, lower := "ABCDEFGHIJKLMNOPQRSTUVWXYZ", "abcdefghijklmnopqrstuvwxyz";
    assert upper[k] as int == 0x41 + k && lower[k] as int == 0x61 + k;
  }

  /** Two bytes are compared as equal exactly when they are the same letter. */
  lemma LowerExactly(c: byte, d: byte)
    ensures Lower(c) == Lower(d) <==> SameLetter(c, d)
  {
    hide Ascii;
    if Lower(c) == Lower(d) && c != d {
      LetterPair((if c < d then c else d) - 0x41);
    }
    if k :| 0 <= k < 26 && ((c == UPPER[k] && d == LOWER[k]) || (d == UPPER[k] && c == LOWER[k])) {
      LetterPair(k);
    }
  }

  /** Texts are the same exactly when they are, letter by letter. */
  lemma SameTextExactly(a: seq<byte>, b: seq<byte>)
    ensures SameText(a, b) <==> |a| == |b| && forall k | 0 <= k < |a| :: SameLetter(a[k], b[k])
  {
    hide Lower, SameLetter;
    if |a| == |b| {
      forall k | 0 <= k < |a|
        ensures Lower(a[k]) == Lower(b[k]) <==> SameLetter(a[k], b[k])
      {
        LowerExactly(a[k], b[k]);
      }
    }
  }

  /** A query is found exactly when the text is something, a spelling of the query, and something. */
  lemma ContainsExactly(text: seq<byte>, query: seq<byte>)
    ensures Contains(text, query) <==> query != [] && exists before, middle, after ::
                text == before + middle + after && SameText(middle, query)
  {
    hide SameText;
    if Contains(text, query) {
      var start: nat :| start <= |text| && OccursAt(text, query, start);
      var middle := text[start..start + |query|];
      assert text == text[..start] + middle + text[start + |query|..];
      assert SameText(middle, query);
    }
    if query != [] {
      if before, middle, after :| text == before + middle + after && SameText(middle, query) {
        SameSize(middle, query);
        assert text[|before|..|before| + |query|] == middle;
        assert OccursAt(text, query, |before|);
      }
    }
  }

  lemma SameSize(a: seq<byte>, b: seq<byte>)
    requires SameText(a, b)
    ensures |a| == |b|
  {
  }

  /** The platforms with two spellings. */
  const SPELLINGS: seq<(string, string)> := [("idp", "iskra-delta-partner"), ("zxs", "zx-spectrum")]

  predicate Spells(text: seq<byte>, pair: (string, string))
  {
    SameText(text, Ascii(pair.0)) || SameText(text, Ascii(pair.1))
  }

  /** A filter selects a platform exactly when they are the same text, or two spellings of one platform. */
  lemma PlatformExactly(platform: seq<byte>, filter: seq<byte>)
    ensures PlatformMatches(platform, filter)
            <==> || SameText(platform, filter)
                 || exists k | 0 <= k < 2 :: Spells(platform, SPELLINGS[k]) && Spells(filter, SPELLINGS[k])
  {
    assert SPELLINGS[0] == ("idp", "iskra-delta-partner") && SPELLINGS[1] == ("zxs", "zx-spectrum");
    Symmetric(platform);
    Symmetric(filter);
    hide SameText, Ascii;
  }

  lemma Symmetric(text: seq<byte>)
    ensures Alias(text, IDP, ISKRA) <==> Spells(text, ("idp", "iskra-delta-partner"))
    ensures Alias(text, ZXS, SPECTRUM) <==> Spells(text, ("zxs", "zx-spectrum"))
  {
    hide SameText, Ascii;
    SameTextEquivalence(IDP, text, text);
    SameTextEquivalence(ISKRA, text, text);
    SameTextEquivalence(ZXS, text, text);
    SameTextEquivalence(SPECTRUM, text, text);
  }

  /** A package is selected exactly when its platform and its model are what the filter asks for, and one of id, name,
      vendor and description holds the query; an empty part of the filter asks for nothing. */
  lemma MatchesExactly(p: Package, f: Filter)
    ensures Matches(p, f)
            <==> && (f.platform != [] ==> PlatformMatches(p.platformId, f.platform))
                 && (f.model != [] ==> SameText(p.modelId, f.model))
                 && (f.query != [] ==>
                       exists field | field in {p.id, p.name, p.vendor, p.description} :: Contains(field, f.query))
  {
    hide PlatformMatches, SameText, Contains;
  }

  /** What is selected, one by one: with SelectAppend this fixes the selection and its order. */
  lemma SelectOne(p: Package, f: Filter)
    ensures Select([p], f) == if Matches(p, f) then [p] else []
    ensures Select([], f) == []
  {
    hide Matches;
    assert [p][..0] == [];
  }

  /** Nothing is selected that does not match, and nothing that matches is left out. */
  lemma {:induction false} SelectExactly(ps: seq<Package>, f: Filter, p: Package)
    ensures p in Select(ps, f) <==> p in ps && Matches(p, f)
  {
    hide Matches;
    if ps != [] {
      var n := |ps| - 1;
      SelectExactly(ps[..n], f, p);
      assert ps == ps[..n] + [ps[n]];
    }
  }
}
