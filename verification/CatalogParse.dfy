/** From the catalogue document to packages. */
module CatalogParse {
  import opened Bytes
  import opened Json
  import opened JsonReparse
  import opened JsonString
  import opened JsonLookup
  import opened JsonReader
  import opened Catalog

  const SIZE_UNKNOWN: u32 := 0xFFFF_FFFF
  const U64: nat := 0x1_0000_0000_0000_0000

  const ID: seq<byte> := Ascii("id")
  const NAME: seq<byte> := Ascii("name")
  const VENDOR: seq<byte> := Ascii("vendor")
  const PLATFORM_ID: seq<byte> := Ascii("platformId")
  const PLATFORM_NAME: seq<byte> := Ascii("platformName")
  const MODEL_ID: seq<byte> := Ascii("modelId")
  const MODEL_NAME: seq<byte> := Ascii("modelName")
  const VERSION: seq<byte> := Ascii("version")
  const DESCRIPTION: seq<byte> := Ascii("description")
  const RATING: seq<byte> := Ascii("rating")
  const YEAR: seq<byte> := Ascii("releaseYear")
  const DOWNLOADS: seq<byte> := Ascii("downloads")
  const LABEL: seq<byte> := Ascii("label")
  const FORMAT: seq<byte> := Ascii("format")
  const FILES: seq<byte> := Ascii("files")
  const SIZE_BYTES: seq<byte> := Ascii("sizeBytes")

  predicate Inside(s: seq<byte>, v: Value)
  {
    v.start <= v.end <= |s| && (v.kind == Object || v.kind == Array ==> v.start + 1 < v.end)
  }

  function Member(s: seq<byte>, v: Value, name: seq<byte>): (r: Lookup)
    requires Inside(s, v)
    ensures r.Found? ==> Inside(s, r.value)
  {
    if v.kind != Object then Lookup.Malformed
    else
      match FindMember(s, v.start + 1, v.end - 1, name)
      case Found(w) => if Inside(s, w) then Found(w) else Lookup.Malformed
      case other => other
  }

  /** get_json_string_member: an absent or null optional text is empty; a required text is not. */
  function Text(s: seq<byte>, v: Value, name: seq<byte>, required: bool): (r: Option<seq<byte>>)
    requires Inside(s, v)
    ensures r.Some? && required ==> r.value != []
    ensures r.Some? ==> 0 !in r.value
  {
    match Member(s, v, name)
    case Malformed => None
    case Absent => if required then None else Some([])
    case Found(w) =>
      if w.kind == Null then (if required then None else Some([]))
      else if w.kind != String || w.end - w.start < 2 then None
      else
        var decoded := DecodeFrom(s, w.start + 1, w.end - 1);
        if decoded.None? || (required && CString(decoded.value) == []) then None else Some(CString(decoded.value))
  }

  function Decimal(digits: seq<byte>): nat
    requires forall k | 0 <= k < |digits| :: IsDigit(digits[k])
  {
    if digits == [] then 0
    else
      var last: byte := digits[|digits| - 1];
      assert IsDigit(last);
      10 * Decimal(digits[..|digits| - 1]) + (last as int - 0x30)
  }

  /** get_json_uint64_member: Some(None) when the member is absent or null. */
  function Number(s: seq<byte>, v: Value, name: seq<byte>): (r: Option<Option<nat>>)
    requires Inside(s, v)
    ensures r.Some? && r.value.Some? ==> r.value.value < U64
  {
    match Member(s, v, name)
    case Malformed => None
    case Absent => Some(None)
    case Found(w) =>
      if w.kind == Null then Some(None)
      else if w.kind != Json.Number || !(1 <= w.end - w.start < 32) then None
      else
        var text := s[w.start..w.end];
        if !(forall k | 0 <= k < |text| :: IsDigit(text[k])) || Decimal(text) >= U64 then None
        else Some(Some(Decimal(text)))
  }

  /** The running totals of parse_download_files. */
  datatype Totals = Totals(count: byte, total: nat, known: bool)

  /** One file: the guard subtracts in 64 bits, so a size above the 32-bit maximum slips through it. */
  function AddFile(t: Totals, size: Option<nat>): (u: Totals)
    requires t.total < U64 && (size.Some? ==> size.value < U64)
    ensures u.total < U64
  {
    var count := if t.count < 255 then t.count + 1 else t.count;
    if size.None? || t.total > (0xFFFF_FFFF - size.value) % U64 then Totals(count, t.total, false)
    else Totals(count, (t.total + size.value) % U64, t.known)
  }

  function Aggregate(sizes: seq<Option<nat>>): (t: Totals)
    requires forall k | 0 <= k < |sizes| :: sizes[k].Some? ==> sizes[k].value < U64
    ensures t.total < U64
  {
    if sizes == [] then Totals(0, 0, true)
    else AddFile(Aggregate(sizes[..|sizes| - 1]), sizes[|sizes| - 1])
  }

  function AggregateSize(t: Totals): u32 { if t.known then t.total % 0x1_0000_0000 else SIZE_UNKNOWN }

  function Sum(sizes: seq<Option<nat>>): nat
  {
    if sizes == [] then 0
    else Sum(sizes[..|sizes| - 1]) + (if sizes[|sizes| - 1].Some? then sizes[|sizes| - 1].value else 0)
  }

  predicate AllKnown(sizes: seq<Option<nat>>) { forall k | 0 <= k < |sizes| :: sizes[k].Some? }

  predicate AllSmall(sizes: seq<Option<nat>>)
  {
    forall k | 0 <= k < |sizes| :: sizes[k].Some? ==> sizes[k].value <= 0xFFFF_FFFF
  }

  /** When no single file exceeds 32 bits, the announced size is the sum of all sizes if they are known and the sum
      fits, and "unknown" otherwise; the file count saturates. */
  lemma {:induction false} AggregateIsSum(sizes: seq<Option<nat>>)
    requires AllSmall(sizes)
    ensures forall k | 0 <= k < |sizes| :: sizes[k].Some? ==> sizes[k].value < U64
    ensures var t := Aggregate(sizes);
            && t.count == Min(|sizes|, 255) && t.total <= Sum(sizes) && t.total <= 0xFFFF_FFFF
            && (t.known <==> AllKnown(sizes) && Sum(sizes) <= 0xFFFF_FFFF) && (t.known ==> t.total == Sum(sizes))
  {
    if sizes != [] {
      var before, last := sizes[..|sizes| - 1], sizes[|sizes| - 1];
      AggregateIsSum(before);
      KnownStep(sizes, before, last);
      AddSmall(Aggregate(before), last);
      hide AddFile, AllKnown;
    }
  }

  lemma KnownStep(sizes: seq<Option<nat>>, before: seq<Option<nat>>, last: Option<nat>)
    requires sizes == before + [last]
    ensures AllKnown(sizes) <==> AllKnown(before) && last.Some?
  {
    assert forall k | 0 <= k < |before| :: sizes[k] == before[k];
    assert sizes[|before|] == last;
  }

  /** Within 32 bits neither the guard nor the sum wraps around. */
  lemma AddSmall(t: Totals, size: Option<nat>)
    requires t.total <= 0xFFFF_FFFF && (size.Some? ==> size.value <= 0xFFFF_FFFF)
    ensures var fits := size.Some? && t.total + size.value <= 0xFFFF_FFFF;
            AddFile(t, size) == Totals(if t.count < 255 then t.count + 1 else t.count,
                                       if fits then t.total + size.value else t.total, fits && t.known)
  {
  }

  /** What should be announced: the sum if it is known and fits, and "unknown" otherwise. */
  function Announced(sizes: seq<Option<nat>>): u32
  {
    if AllKnown(sizes) && Sum(sizes) <= 0xFFFF_FFFF then Sum(sizes) else SIZE_UNKNOWN
  }

  /** The guard lets a file through: the total stays in 32 bits, or the file alone exceeds them and the total does not
      run more than 32 bits past the 64-bit range. */
  predicate LetThrough(total: nat, size: nat)
  {
    total + size <= 0xFFFF_FFFF || (size > 0xFFFF_FFFF && total + size <= U64 + 0xFFFF_FFFF)
  }

  /** Every file is known and let through after the ones before it. */
  predicate NeverRefused(sizes: seq<Option<nat>>)
  {
    sizes == []
    || var before, last := sizes[..|sizes| - 1], sizes[|sizes| - 1];
       NeverRefused(before) && last.Some? && LetThrough(Sum(before) % U64, last.value)
  }

  lemma {:induction false} AggregateWraps(sizes: seq<Option<nat>>)
    requires forall k | 0 <= k < |sizes| :: sizes[k].Some? ==> sizes[k].value < U64
    ensures var t := Aggregate(sizes);
            (t.known <==> NeverRefused(sizes)) && (t.known ==> t.total == Sum(sizes) % U64)
  {
    if sizes != [] {
      var before, last := sizes[..|sizes| - 1], sizes[|sizes| - 1];
      assert forall k | 0 <= k < |before| :: before[k] == sizes[k];
      AggregateWraps(before);
      var t := Aggregate(before);
      if last.Some? {
        GuardLets(t.total, last.value);
        SumWraps(Sum(before), last.value);
      }
    }
  }

  lemma GuardLets(total: nat, size: nat)
    requires total < U64 && size < U64
    ensures total > (0xFFFF_FFFF - size) % U64 <==> !LetThrough(total, size)
  {
    if size > 0xFFFF_FFFF {
      assert (0xFFFF_FFFF - size) % U64 == U64 + 0xFFFF_FFFF - size;
    }
  }

  lemma SumWraps(sum: nat, size: nat)
    requires size < U64
    ensures (sum % U64 + size) % U64 == (sum + size) % U64
  {
  }

  lemma LowHalf(sum: nat)
    ensures sum % U64 % 0x1_0000_0000 == sum % 0x1_0000_0000
  {
    var q := sum / U64;
    assert sum == sum % U64 + 0x1_0000_0000 * (0x1_0000_0000 * q);
  }

  lemma {:induction false} LargeSum(sizes: seq<Option<nat>>, k: nat)
    requires k < |sizes| && sizes[k].Some?
    ensures Sum(sizes) >= sizes[k].value
  {
    if k < |sizes| - 1 {
      LargeSum(sizes[..|sizes| - 1], k);
    }
  }

  /** Exactly when the announced size is the right one: it is wrong if and only if some file exceeds 32 bits, the
      guard refuses no file, and the low 32 bits of the sum do not happen to read "unknown". */
  lemma AnnouncedExactly(sizes: seq<Option<nat>>)
    requires forall k | 0 <= k < |sizes| :: sizes[k].Some? ==> sizes[k].value < U64
    ensures AggregateSize(Aggregate(sizes)) == Announced(sizes)
            <==> AllSmall(sizes) || !NeverRefused(sizes) || Sum(sizes) % 0x1_0000_0000 == SIZE_UNKNOWN
  {
    AggregateWraps(sizes);
    hide Aggregate, NeverRefused, Sum;
    LowHalf(Sum(sizes));
    if AllSmall(sizes) {
      AggregateIsSum(sizes);
    } else {
      var k :| 0 <= k < |sizes| && sizes[k].Some? && sizes[k].value > 0xFFFF_FFFF;
      LargeSum(sizes, k);
    }
  }

  /** The condition is not empty: one file of 2^32 bytes is announced with size 0. */
  lemma OversizedFileAnnounced()
    ensures AggregateSize(Aggregate([Some(0x1_0000_0000)])) == 0
  {
    var one := [Some(0x1_0000_0000 as nat)];
    assert one[..0] == [];
  }

  /** The elements the array iterator yields for an array value. */
  function Elements(s: seq<byte>, v: Value): (r: Option<seq<Value>>)
    requires Inside(s, v)
    ensures r.Some? ==> forall k | 0 <= k < |r.value| :: Inside(s, r.value[k])
  {
    if v.kind != Array then None
    else
      var items := Iterate(s, v.start + 1, v.end - 1);
      if items.None? || exists k | 0 <= k < |items.value| :: !Inside(s, items.value[k]) then None else items
  }

  /** The sizes of a download's files, or None if one of them is malformed. */
  function FileSizes(s: seq<byte>, files: seq<Value>): (r: Option<seq<Option<nat>>>)
    requires forall k | 0 <= k < |files| :: Inside(s, files[k])
    ensures r.Some? ==>
              |r.value| == |files| && forall k | 0 <= k < |files| :: r.value[k].Some? ==> r.value[k].value < U64
  {
    if files == [] then Some([])
    else
      var before, last := FileSizes(s, files[..|files| - 1]), files[|files| - 1];
      if before.None? || last.kind != Object || Number(s, last, SIZE_BYTES).None? then None
      else Some(before.value + [Number(s, last, SIZE_BYTES).value])
  }

  function ParseDownload(s: seq<byte>, v: Value): (r: Option<Download>)
    requires Inside(s, v)
  {
    var id, caption, format := Text(s, v, ID, true), Text(s, v, LABEL, true), Text(s, v, FORMAT, true);
    var files := Member(s, v, FILES);
    if v.kind != Object || id.None? || caption.None? || format.None? || !files.Found? then None
    else
      var items := Elements(s, files.value);
      if items.None? then None
      else
        var sizes := FileSizes(s, items.value);
        if sizes.None? then None
        else
          var t := Aggregate(sizes.value);
          Some(Download(id.value, caption.value, format.value, AggregateSize(t), t.count))
  }

  function ParseDownloads(s: seq<byte>, items: seq<Value>): (r: Option<seq<Download>>)
    requires forall k | 0 <= k < |items| :: Inside(s, items[k])
  {
    if items == [] then Some([])
    else
      var before, last := ParseDownloads(s, items[..|items| - 1]), ParseDownload(s, items[|items| - 1]);
      if before.None? || last.None? then None else Some(before.value + [last.value])
  }

  /** The downloads member: absent or null means none. */
  function DownloadsOf(s: seq<byte>, v: Value): Option<seq<Download>>
    requires Inside(s, v)
  {
    match Member(s, v, DOWNLOADS)
    case Malformed => None
    case Absent => Some([])
    case Found(w) =>
      if w.kind == Null then Some([])
      else
        var items := Elements(s, w);
        if items.None? then None else ParseDownloads(s, items.value)
  }

  function ParseRating(text: seq<byte>): byte
  {
    if text == Ascii("Curious") then 1
    else if text == Ascii("Average") then 2
    else if text == Ascii("Great") then 3
    else if text == Ascii("Legendary") then 4
    else 0
  }

  function ParsePackage(s: seq<byte>, v: Value): (r: Option<Package>)
    requires Inside(s, v)
    ensures r.Some? ==> r.value.id != [] && r.value.name != []
  {
    var id, name, vendor := Text(s, v, ID, true), Text(s, v, NAME, true), Text(s, v, VENDOR, false);
    var platformId, platformName := Text(s, v, PLATFORM_ID, false), Text(s, v, PLATFORM_NAME, false);
    var modelId, modelName := Text(s, v, MODEL_ID, false), Text(s, v, MODEL_NAME, false);
    var version, description := Text(s, v, VERSION, false), Text(s, v, DESCRIPTION, false);
    var rating, year, downloads := Text(s, v, RATING, false), Number(s, v, YEAR), DownloadsOf(s, v);
    if v.kind != Object || id.None? || name.None? || vendor.None? || platformId.None? || platformName.None?
       || modelId.None? || modelName.None? || version.None? || description.None? || rating.None? || year.None?
       || downloads.None? then None
    else
      Some(Package(
             id.value, name.value, vendor.value, platformId.value, platformName.value, modelId.value, modelName.value,
             version.value, description.value,
             if year.value.Some? && year.value.value <= 0xFFFF then year.value.value else 0,
             ParseRating(rating.value), downloads.value))
  }

  function ParsePackages(s: seq<byte>, items: seq<Value>): (r: Option<seq<Package>>)
    requires forall k | 0 <= k < |items| :: Inside(s, items[k])
    ensures r.Some? ==> |r.value| == |items|
  {
    if items == [] then Some([])
    else
      var before, last := ParsePackages(s, items[..|items| - 1]), ParsePackage(s, items[|items| - 1]);
      if before.None? || last.None? then None else Some(before.value + [last.value])
  }

  /** parse_catalog: the whole document is one array of at most 65535 packages. */
  function ParseCatalog(s: seq<byte>): (r: Option<seq<Package>>)
    ensures r.Some? ==> |r.value| <= CATALOG_MAX
  {
    var root := ParseText(s);
    if root.None? || !Inside(s, root.value.extent) then None
    else
      var items := Elements(s, root.value.extent);
      if items.None? || |items.value| > CATALOG_MAX then None else ParsePackages(s, items.value)
  }

  lemma ReadableInside(s: seq<byte>, v: Value)
    requires Readable(s, v)
    ensures Inside(s, v)
  {
    if v.kind == Object || v.kind == Array {
      var n := ReadableNode(s, v);
      ContainerUnfold(s, n);
    }
  }

  /** The array of an accepted document lists exactly the elements the reader delimited. */
  lemma ElementsOfRoot(s: seq<byte>)
    requires ParseText(s).Some? && ParseText(s).value.extent.kind == Array
    ensures Inside(s, ParseText(s).value.extent)
    ensures Elements(s, ParseText(s).value.extent) == Some(ParseText(s).value.items)
  {
    hide ParseText, Iterate, Inside, Readable, Settled;
    var n := ParseText(s).value;
    RootSettled(s);
    RootReadable(s);
    ReadableInside(s, n.extent);
    IteratorYieldsElements(s, n);
    PartsReadable(s, n);
    forall k | 0 <= k < |n.items|
      ensures Inside(s, n.items[k])
    {
      ReadableInside(s, n.items[k]);
    }
  }

  lemma RootReadable(s: seq<byte>)
    requires ParseText(s).Some?
    ensures Readable(s, ParseText(s).value.extent)
  {
    RootSettled(s);
  }

  /** A document is a catalogue exactly when it is an array of at most 65535 elements, each of which is a package;
      the packages then are those elements, in order. */
  lemma CatalogExactly(s: seq<byte>, ps: seq<Package>)
    ensures ParseCatalog(s) == Some(ps) <==>
            && ParseText(s).Some? && ParseText(s).value.extent.kind == Array
            && var items := ParseText(s).value.items;
               && |items| == |ps| <= CATALOG_MAX
               && forall k | 0 <= k < |items| :: Inside(s, items[k]) && ParsePackage(s, items[k]) == Some(ps[k])
  {
    hide ParseText, Elements, ParsePackage, Inside;
    if ParseText(s).Some? {
      if ParseText(s).value.extent.kind == Array {
        var items := ParseText(s).value.items;
        ElementsOfRoot(s);
        InsideAll(s);
        PackagesExactly(s, items, ps);
      } else {
        NoElements(s);
      }
    }
  }

  lemma InsideAll(s: seq<byte>)
    requires ParseText(s).Some? && Inside(s, ParseText(s).value.extent)
    requires Elements(s, ParseText(s).value.extent) == Some(ParseText(s).value.items)
    ensures forall k | 0 <= k < |ParseText(s).value.items| :: Inside(s, ParseText(s).value.items[k])
  {
    hide ParseText, Iterate;
  }

  lemma NoElements(s: seq<byte>)
    requires ParseText(s).Some? && ParseText(s).value.extent.kind != Array
    ensures Inside(s, ParseText(s).value.extent) ==> Elements(s, ParseText(s).value.extent).None?
  {
  }

  lemma {:induction false} PackagesExactly(s: seq<byte>, items: seq<Value>, ps: seq<Package>)
    requires forall k | 0 <= k < |items| :: Inside(s, items[k])
    ensures ParsePackages(s, items) == Some(ps)
            <==> |items| == |ps| && forall k | 0 <= k < |items| :: ParsePackage(s, items[k]) == Some(ps[k])
  {
    hide ParsePackage, Inside;
    if items != [] && |items| == |ps| {
      var n := |items| - 1;
      PackagesExactly(s, items[..n], ps[..n]);
      assert ps == ps[..n] + [ps[n]];
      if ParsePackages(s, items) == Some(ps) {
        assert ParsePackages(s, items[..n]).value == ps[..n];
        forall k | 0 <= k < |items|
          ensures ParsePackage(s, items[k]) == Some(ps[k])
        {
          if k < n {
            assert items[..n][k] == items[k] && ps[..n][k] == ps[k];
          }
        }
      }
    }
  }

  lemma {:induction false} DownloadsExactly(s: seq<byte>, items: seq<Value>, ds: seq<Download>)
    requires forall k | 0 <= k < |items| :: Inside(s, items[k])
    ensures ParseDownloads(s, items) == Some(ds)
            <==> |items| == |ds| && forall k | 0 <= k < |items| :: ParseDownload(s, items[k]) == Some(ds[k])
  {
    hide ParseDownload, Inside;
    if items != [] {
      var n := |items| - 1;
      if |items| == |ds| {
        DownloadsExactly(s, items[..n], ds[..n]);
        assert ds == ds[..n] + [ds[n]];
        if ParseDownloads(s, items) == Some(ds) {
          assert ParseDownloads(s, items[..n]).value == ds[..n];
          forall k | 0 <= k < |items|
            ensures ParseDownload(s, items[k]) == Some(ds[k])
          {
            if k < n {
              assert items[..n][k] == items[k] && ds[..n][k] == ds[k];
            }
          }
        }
      } else if ParseDownloads(s, items).Some? {
        var before := ParseDownloads(s, items[..n]).value;
        DownloadsExactly(s, items[..n], before);
      }
    }
  }

  lemma {:induction false} FilesExactly(s: seq<byte>, files: seq<Value>, sizes: seq<Option<nat>>)
    requires forall k | 0 <= k < |files| :: Inside(s, files[k])
    ensures FileSizes(s, files) == Some(sizes)
            <==> |files| == |sizes| && forall k | 0 <= k < |files| ::
                   files[k].kind == Object && Number(s, files[k], SIZE_BYTES) == Some(sizes[k])
  {
    hide Number, Inside;
    if files != [] && |files| == |sizes| {
      var n := |files| - 1;
      FilesExactly(s, files[..n], sizes[..n]);
      assert sizes == sizes[..n] + [sizes[n]];
      if FileSizes(s, files) == Some(sizes) {
        assert FileSizes(s, files[..n]).value == sizes[..n];
        forall k | 0 <= k < |files|
          ensures files[k].kind == Object && Number(s, files[k], SIZE_BYTES) == Some(sizes[k])
        {
          if k < n {
            assert files[..n][k] == files[k] && sizes[..n][k] == sizes[k];
          }
        }
      }
    }
  }

  /** The element in front and those behind it, as the iterator gives them out. */
  lemma FirstOf(items: seq<Value>, done: nat, item: Value, behind: seq<Value>)
    requires done <= |items| && items[done..] == [item] + behind
    ensures done < |items| && item == items[done] && behind == items[done + 1..]
  {
    assert items[done..][0] == item;
    assert items[done..][1..] == behind;
  }

  lemma PrefixStep(items: seq<Value>, done: nat)
    requires done < |items|
    ensures items[..done + 1][..done] == items[..done]
  {
  }

  /** The same with the iterator object, one element at a time. */
  method ReadCatalog(s: seq<byte>) returns (r: Option<seq<Package>>)
    ensures r == ParseCatalog(s)
  {
    hide ParseText, Iterate, ParsePackage, Inside;
    var root := ParseJson(s);
    if root.None? || root.value.kind != Array {
      if root.Some? {
        NoElements(s);
      }
      return None;
    }
    ElementsOfRoot(s);
    ghost var items := ParseText(s).value.items;
    InsideAll(s);
    RootArray(s);
    var walker := new ArrayIterator(s, root.value);
    var parsed: seq<Package> := [];
    ghost var done := 0;
    var code, item := walker.Next();
    while code > 0
      invariant walker.Valid() && walker.s == s && fresh(walker) && code >= 0
      invariant done <= |items| && |parsed| == done <= CATALOG_MAX
      invariant ParsePackages(s, items[..done]) == Some(parsed)
      invariant code == 0 ==> done == |items|
      invariant code == 1 ==>
                  done < |items| && item == items[done] && walker.Remaining() == Some(items[done + 1..])
      invariant code <= 1
      decreases |items| - done, code
    {
      if |parsed| >= CATALOG_MAX {
        return None;
      }
      PrefixStep(items, done);
      var package := ParsePackage(s, item);
      if package.None? {
        PackagesFail(s, items, done);
        return None;
      }
      parsed := parsed + [package.value];
      done := done + 1;
      code, item := walker.Next();
      if code == 1 {
        FirstOf(items, done, item, walker.Remaining().value);
      }
    }
    assert items[..done] == items;
    return Some(parsed);
  }

  lemma RootArray(s: seq<byte>)
    requires ParseText(s).Some? && ParseText(s).value.extent.kind == Array
    requires Inside(s, ParseText(s).value.extent)
    requires Elements(s, ParseText(s).value.extent) == Some(ParseText(s).value.items)
    ensures var v := ParseText(s).value.extent;
            v.start + 1 < v.end <= |s| && Iterate(s, v.start + 1, v.end - 1) == Some(ParseText(s).value.items)
  {
    hide ParseText, Iterate;
  }

  lemma {:induction false} PackagesFail(s: seq<byte>, items: seq<Value>, k: nat)
    requires forall j | 0 <= j < |items| :: Inside(s, items[j])
    requires k < |items| && ParsePackage(s, items[k]).None?
    ensures ParsePackages(s, items).None?
    decreases |items|
  {
    hide ParsePackage, Inside;
    if k < |items| - 1 {
      PackagesFail(s, items[..|items| - 1], k);
    }
  }
}
