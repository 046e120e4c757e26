/** What a catalogue document says, read off its syntax tree instead of its bytes: which member fills which field of a
    package, for every text the reader accepts. */
module CatalogMeaning {
  import opened Bytes
  import opened Json
  import opened JsonReparse
  import opened JsonString
  import opened JsonLookup
  import opened JsonGrammar
  import opened JsonAccepted
  import opened Catalog
  import CatalogParse

  /** The members of an object or the elements of an array, in order. */
  function Slots(t: Tree): seq<Slot> { if t.Filled? then ChainSlots(t.chain) else [] }

  function ChainSlots(c: Chain): (xs: seq<Slot>)
    ensures xs != [] && xs[0] == c.slot
  {
    if c.Last? then [c.slot] else [c.slot] + ChainSlots(c.rest)
  }

  predicate IsObject(t: Tree) { (t.Empty? || t.Filled?) && t.braces }

  predicate IsArray(t: Tree) { (t.Empty? || t.Filled?) && !t.braces }

  /** The text a literal stands for, up to its first NUL character. */
  function Reads(us: seq<Unit>): Option<seq<byte>>
  {
    if !AllScannable(us) || Esc(0) in us then None else Some(CString(Meaning(us)))
  }

  function FirstNamed(xs: seq<Slot>, name: seq<byte>): Option<Tree>
  {
    if xs == [] then None
    else if Reads(xs[0].key) == Some(name) then Some(xs[0].value)
    else FirstNamed(xs[1..], name)
  }

  /** The value of the first member with this name. */
  function MemberOf(t: Tree, name: seq<byte>): Option<Tree> { FirstNamed(Slots(t), name) }

  /** A text member: empty when it is absent or null, None when it is anything else than a text. */
  function TextOf(t: Tree, name: seq<byte>): Option<seq<byte>>
  {
    match MemberOf(t, name)
    case None => Some([])
    case Some(Nothing) => Some([])
    case Some(Str(us)) => Reads(us)
    case _ => None
  }

  /** A numeral the catalogue takes: 1 to 31 digits and nothing else, below 2 to the power of 64. */
  predicate Numeral(d: seq<byte>)
  {
    1 <= |d| < 32 && (forall k | 0 <= k < |d| :: IsDigit(d[k])) && CatalogParse.Decimal(d) < CatalogParse.U64
  }

  /** A number member: Some(None) when it is absent or null, None when it is anything else than a numeral. */
  function NumberOf(t: Tree, name: seq<byte>): Option<Option<nat>>
  {
    match MemberOf(t, name)
    case None => Some(None)
    case Some(Nothing) => Some(None)
    case Some(Num(d)) => if Numeral(d) then Some(Some(CatalogParse.Decimal(d))) else None
    case _ => None
  }

  predicate HasText(t: Tree, name: string, text: seq<byte>) { TextOf(t, Ascii(name)) == Some(text) }

  const RATINGS: seq<string> := ["Curious", "Average", "Great", "Legendary"]

  /** The four ratings are numbered from 1; every other text is rated 0. */
  predicate Rated(text: seq<byte>, rating: byte)
  {
    if rating == 0 then forall k | 0 <= k < 4 :: text != Ascii(RATINGS[k])
    else rating <= 4 && text == Ascii(RATINGS[rating - 1])
  }

  /** A year beyond 16 bits counts as unknown, like an absent one. */
  predicate Released(number: Option<nat>, year: u16)
  {
    if number.Some? && number.value < 0x1_0000 then year == number.value else year == 0
  }

  /** The elements are files with these sizes. */
  predicate SizedAs(xs: seq<Slot>, sizes: seq<Option<nat>>)
  {
    && |xs| == |sizes|
    && forall k | 0 <= k < |xs| ::
         IsObject(xs[k].value) && NumberOf(xs[k].value, Ascii("sizeBytes")) == Some(sizes[k])
  }

  /** The files of a download and their sizes. */
  predicate Files(t: Tree, sizes: seq<Option<nat>>)
  {
    && MemberOf(t, Ascii("files")).Some? && IsArray(MemberOf(t, Ascii("files")).value)
    && SizedAs(Slots(MemberOf(t, Ascii("files")).value), sizes)
  }

  /** The object is this download. */
  ghost predicate Offers(t: Tree, d: Download)
  {
    && IsObject(t) && d.id != [] && d.caption != [] && d.format != []
    && HasText(t, "id", d.id) && HasText(t, "label", d.caption) && HasText(t, "format", d.format)
    && exists sizes | Files(t, sizes) :: Sized(sizes, d)
  }

  ghost predicate Sized(sizes: seq<Option<nat>>, d: Download)
  {
    && (forall k | 0 <= k < |sizes| :: sizes[k].Some? ==> sizes[k].value < CatalogParse.U64)
    && d.size == CatalogParse.AggregateSize(CatalogParse.Aggregate(sizes)) && d.files == Min(|sizes|, 255)
  }

  /** The downloads member: absent or null means none. */
  ghost predicate OffersAll(member: Option<Tree>, ds: seq<Download>)
  {
    if member.None? || member.value.Nothing? then ds == []
    else
      && IsArray(member.value) && |Slots(member.value)| == |ds|
      && forall k | 0 <= k < |ds| :: Offers(Slots(member.value)[k].value, ds[k])
  }

  /** The object is this package. */
  ghost predicate Describes(t: Tree, p: Package)
  {
    && IsObject(t) && p.id != [] && p.name != []
    && HasText(t, "id", p.id) && HasText(t, "name", p.name) && HasText(t, "vendor", p.vendor)
    && HasText(t, "platformId", p.platformId) && HasText(t, "platformName", p.platformName)
    && HasText(t, "modelId", p.modelId) && HasText(t, "modelName", p.modelName)
    && HasText(t, "version", p.version) && HasText(t, "description", p.description)
    && TextOf(t, Ascii("rating")).Some? && Rated(TextOf(t, Ascii("rating")).value, p.rating)
    && NumberOf(t, Ascii("releaseYear")).Some? && Released(NumberOf(t, Ascii("releaseYear")).value, p.year)
    && OffersAll(MemberOf(t, Ascii("downloads")), p.downloads)
  }

  /** The tree is an array of exactly these packages. */
  ghost predicate Lists(t: Tree, ps: seq<Package>)
  {
    && IsArray(t) && |Slots(t)| == |ps| <= 65535
    && forall k | 0 <= k < |ps| :: Describes(Slots(t)[k].value, ps[k])
  }

  // ----- numerals ------------------------------------------------------------------------------------------------

  function Power(n: nat): nat { if n == 0 then 1 else 10 * Power(n - 1) }

  predicate AllDigits(d: seq<byte>) { forall k | 0 <= k < |d| :: IsDigit(d[k]) }

  /** A numeral is read with ten as its base: one digit counts its value, and digits behind others push those up. */
  lemma {:induction false} DecimalPlaces(a: seq<byte>, b: seq<byte>)
    requires AllDigits(a) && AllDigits(b)
    ensures CatalogParse.Decimal(a + b) == CatalogParse.Decimal(a) * Power(|b|) + CatalogParse.Decimal(b)
    ensures |a| == 1 ==> 0 <= CatalogParse.Decimal(a) < 10 && a[0] == Ascii("0123456789")[CatalogParse.Decimal(a)]
  {
    hide CatalogParse.Decimal, Power, Ascii;
    if |a| == 1 {
      OneDigit(a[0]);
      DecimalLast(a);
      DecimalNone(a[..0]);
    }
    if b == [] {
      assert a + b == a;
      DecimalNone(b);
    } else {
      var c := b[..|b| - 1];
      assert (a + b)[..|a + b| - 1] == a + c;
      DecimalPlaces(a, c);
      DecimalLast(b);
      DecimalLast(a + b);
      Shift(CatalogParse.Decimal(a), Power(|c|), CatalogParse.Decimal(c), b[|b| - 1] - 0x30);
    }
  }

  lemma DecimalLast(d: seq<byte>)
    requires AllDigits(d) && d != []
    ensures AllDigits(d[..|d| - 1]) && Power(|d|) == 10 * Power(|d| - 1)
    ensures CatalogParse.Decimal(d) == 10 * CatalogParse.Decimal(d[..|d| - 1]) + (d[|d| - 1] - 0x30)
  {
  }

  lemma DecimalNone(d: seq<byte>)
    requires d == []
    ensures CatalogParse.Decimal(d) == 0 && Power(0) == 1
  {
  }

  lemma Shift(x: int, w: int, y: int, digit: int)
    ensures 10 * (x * w + y) + digit == x * (10 * w) + (10 * y + digit)
  {
    assert x * (10 * w) == 10 * (x * w);
  }

  lemma OneDigit(c: byte)
    requires IsDigit(c)
    ensures Ascii("0123456789")[c - 0x30] == c
  {
    var v := c - 0x30;
    assert "0123456789"[v] as int == 0x30 + v;
  }

  // ----- where the parts of a tree stand -------------------------------------------------------------------------

  /** The value is the text of this tree. */
  ghost predicate Stands(s: seq<byte>, v: Value, t: Tree)
  {
    Bytes.At(s, v.start, Text(t)) && Loose(t) && Depth(t) <= MAX_DEPTH && v == Extent(t, v.start)
  }

  /** The key is the literal with these units. */
  ghost predicate Spelled(s: seq<byte>, key: Span, us: seq<Unit>)
  {
    AllScannable(us) && Bytes.At(s, key.start, Quoted(us)) && key.end == key.start + |Quoted(us)|
  }

  lemma StandsNode(s: seq<byte>, v: Value, t: Tree)
    requires Stands(s, v, t)
    ensures Settled(s, Shape(t, v.start)) && Shape(t, v.start).extent == v && v.kind == KindOf(t)
    ensures CatalogParse.Inside(s, v)
  {
    var n := Shape(t, v.start);
    assert Bytes.At(s, v.start, []);
    hide Bytes.At, Loose, Depth, ParseValue;
    AtFits(s, v.start, Text(t));
    ValueComplete(s, v.start, v.end, 0, [], t);
    CatalogParse.ReadableInside(s, v);
  }

  lemma {:induction false} ChainStands(s: seq<byte>, at: nat, c: Chain, braces: bool)
    requires Bytes.At(s, at, ChainText(c, braces)) && LooseChain(c, braces) && ChainDepth(c) < MAX_DEPTH
    ensures var parts, xs := ChainShape(c, braces, at), ChainSlots(c);
            && |parts.items| == |xs| && (forall k | 0 <= k < |xs| :: Stands(s, parts.items[k], xs[k].value))
            && (braces ==> |parts.keys| == |xs| && forall k | 0 <= k < |xs| :: Spelled(s, parts.keys[k], xs[k].key))
    decreases c
  {
    hide Bytes.At, Stands, Spelled, SlotText, SlotShape, LooseSlot, Depth;
    ChainPlaces(s, at, braces, c);
    SlotStands(s, at, c.slot, braces);
    if c.More? {
      ChainStands(s, at + |SlotText(c.slot, braces)| + 1, c.rest, braces);
    }
  }

  lemma SlotStands(s: seq<byte>, at: nat, x: Slot, braces: bool)
    requires Bytes.At(s, at, SlotText(x, braces)) && LooseSlot(x, braces) && Depth(x.value) <= MAX_DEPTH
    ensures var part := SlotShape(x, braces, at);
            && Stands(s, part.item, x.value) && part.next == at + |SlotText(x, braces)|
            && (braces ==> |part.keys| == 1 && Spelled(s, part.keys[0], x.key))
            && (!braces ==> part.keys == [])
  {
    hide Bytes.At, KeyText, SlotText, Text, Quoted, AllSpace, AllScannable, Depth, Loose;
    SlotPlaces(s, at, braces, x);
    if braces {
      KeyPlaces(s, at, x);
    }
  }

  lemma KeyReads(s: seq<byte>, key: Span, us: seq<Unit>, name: seq<byte>)
    requires Spelled(s, key, us)
    ensures key.start + 2 <= key.end <= |s| && (KeyIs(s, key, name) <==> Reads(us) == Some(name))
  {
    hide DecodeFrom, Meaning, CString, Bytes.At, AllScannable, Quoted;
    LiteralReads(s, key.start, key.end, us);
  }

  lemma LiteralReads(s: seq<byte>, start: nat, end: nat, us: seq<Unit>)
    requires AllScannable(us) && Bytes.At(s, start, Quoted(us)) && end == start + |Quoted(us)|
    ensures start + 2 <= end <= |s|
    ensures DecodeFrom(s, start + 1, end - 1) == if Esc(0) in us then None else Some(Meaning(us))
  {
    AtFits(s, start, Quoted(us));
    hide Bytes.At, UnitsText, AllScannable, DecodeFrom;
    AtAppend(s, start, [QUOTE], UnitsText(us) + [QUOTE]);
    AtAppend(s, start + 1, UnitsText(us), [QUOTE]);
    DecodeMeaning(s, start + 1, end - 1, us);
  }

  /** What a lookup gives, against the tree. */
  ghost predicate Agrees(s: seq<byte>, found: Lookup, member: Option<Tree>)
  {
    match member
    case None => found == Absent
    case Some(t) => found.Found? && Stands(s, found.value, t)
  }

  lemma {:induction false} MatchStands(
      s: seq<byte>, keys: seq<Span>, items: seq<Value>, xs: seq<Slot>, name: seq<byte>)
    requires |keys| == |items| == |xs| && Literals(s, keys)
    requires forall k | 0 <= k < |xs| :: Spelled(s, keys[k], xs[k].key) && Stands(s, items[k], xs[k].value)
    ensures Agrees(s, FirstMatch(s, keys, items, name), FirstNamed(xs, name))
    decreases |xs|
  {
    hide Spelled, Stands, KeyIs, Reads;
    if xs != [] {
      KeyReads(s, keys[0], xs[0].key, name);
      MatchStands(s, keys[1..], items[1..], xs[1..], name);
    }
  }

  lemma ContainerStands(s: seq<byte>, v: Value, t: Tree)
    requires Stands(s, v, t) && (IsObject(t) || IsArray(t))
    ensures var n, xs := Shape(t, v.start), Slots(t);
            && |n.items| == |xs| && (forall k | 0 <= k < |xs| :: Stands(s, n.items[k], xs[k].value))
            && (IsObject(t) ==> |n.keys| == |xs| && forall k | 0 <= k < |xs| :: Spelled(s, n.keys[k], xs[k].key))
  {
    if t.Filled? {
      hide Bytes.At, ChainText, ChainShape, ChainDepth, LooseChain, Spelled, ChainSlots, KindOf;
      AtAppend(s, v.start, [Opening(t.braces)], ChainText(t.chain, t.braces));
      ChainStands(s, v.start + 1, t.chain, t.braces);
    }
  }

  lemma MemberStands(s: seq<byte>, v: Value, t: Tree, name: seq<byte>)
    requires Stands(s, v, t) && IsObject(t)
    ensures CatalogParse.Inside(s, v) && Agrees(s, CatalogParse.Member(s, v, name), MemberOf(t, name))
  {
    hide Stands, Settled, Shape, Spelled, Slots, FirstNamed, FirstMatch, FindMember, Literals, CatalogParse.Inside;
    StandsNode(s, v, t);
    ContainerStands(s, v, t);
    var n := Shape(t, v.start);
    LookupFindsFirst(s, n, name);
    MatchStands(s, n.keys, n.items, Slots(t), name);
    var r := FirstMatch(s, n.keys, n.items, name);
    if r.Found? {
      StandsNode(s, r.value, FirstNamed(Slots(t), name).value);
    }
  }

  ghost predicate AllStand(s: seq<byte>, vs: seq<Value>, xs: seq<Slot>)
  {
    |vs| == |xs| && forall k | 0 <= k < |xs| :: Stands(s, vs[k], xs[k].value)
  }

  lemma ElementsStand(s: seq<byte>, v: Value, t: Tree)
    requires Stands(s, v, t)
    ensures CatalogParse.Inside(s, v)
    ensures var r := CatalogParse.Elements(s, v);
            if IsArray(t) then r.Some? && AllStand(s, r.value, Slots(t)) else r.None?
  {
    hide Stands, Settled, Shape, Spelled, Slots, Iterate, CatalogParse.Inside;
    StandsNode(s, v, t);
    if IsArray(t) {
      ContainerStands(s, v, t);
      var n := Shape(t, v.start);
      IteratorYieldsElements(s, n);
      forall k | 0 <= k < |n.items|
        ensures CatalogParse.Inside(s, n.items[k])
      {
        StandsNode(s, n.items[k], Slots(t)[k].value);
      }
    }
  }

  // ----- what the catalogue reader makes of them -----------------------------------------------------------------

  lemma TextMeans(s: seq<byte>, v: Value, t: Tree, name: seq<byte>, required: bool)
    requires Stands(s, v, t) && IsObject(t)
    ensures CatalogParse.Inside(s, v)
    ensures CatalogParse.Text(s, v, name, required)
            == if required && TextOf(t, name) == Some([]) then None else TextOf(t, name)
  {
    hide Stands, MemberOf, CatalogParse.Member, CatalogParse.Inside, DecodeFrom, Meaning, CString, AllScannable;
    MemberStands(s, v, t, name);
    var m := MemberOf(t, name);
    if m.Some? {
      var w := CatalogParse.Member(s, v, name).value;
      KindStands(s, w, m.value);
      if m.value.Str? {
        StringStands(s, w, m.value);
      }
    }
  }

  lemma StringStands(s: seq<byte>, v: Value, t: Tree)
    requires Stands(s, v, t) && t.Str?
    ensures v.start + 2 <= v.end <= |s| && AllScannable(t.units)
    ensures DecodeFrom(s, v.start + 1, v.end - 1) == if Esc(0) in t.units then None else Some(Meaning(t.units))
  {
    hide DecodeFrom, Bytes.At, Depth;
    LiteralReads(s, v.start, v.end, t.units);
  }

  lemma NumberMeans(s: seq<byte>, v: Value, t: Tree, name: seq<byte>)
    requires Stands(s, v, t) && IsObject(t)
    ensures CatalogParse.Inside(s, v) && CatalogParse.Number(s, v, name) == NumberOf(t, name)
  {
    hide Stands, MemberOf, CatalogParse.Member, CatalogParse.Inside, CatalogParse.Decimal, IsDigit;
    MemberStands(s, v, t, name);
    var m := MemberOf(t, name);
    if m.Some? {
      var w := CatalogParse.Member(s, v, name).value;
      KindStands(s, w, m.value);
      if m.value.Num? {
        NumeralStands(s, w, m.value);
      }
    }
  }

  lemma NumeralStands(s: seq<byte>, v: Value, t: Tree)
    requires Stands(s, v, t) && t.Num?
    ensures v.end - v.start == |t.text| && v.end <= |s| && s[v.start..v.end] == t.text
  {
  }

  lemma SizesMean(s: seq<byte>, vs: seq<Value>, xs: seq<Slot>, sizes: seq<Option<nat>>)
    requires AllStand(s, vs, xs)
    ensures forall k | 0 <= k < |vs| :: CatalogParse.Inside(s, vs[k])
    ensures CatalogParse.FileSizes(s, vs) == Some(sizes) <==> SizedAs(xs, sizes)
  {
    hide Stands, CatalogParse.Inside, CatalogParse.Number, CatalogParse.FileSizes, NumberOf, Ascii, IsObject, KindOf;
    AllInside(s, vs, xs);
    CatalogParse.FilesExactly(s, vs, sizes);
    forall k | 0 <= k < |xs|
      ensures vs[k].kind == Object <==> IsObject(xs[k].value)
      ensures IsObject(xs[k].value) ==>
                CatalogParse.Number(s, vs[k], CatalogParse.SIZE_BYTES) == NumberOf(xs[k].value, Ascii("sizeBytes"))
    {
      KindStands(s, vs[k], xs[k].value);
      if IsObject(xs[k].value) {
        NumberMeans(s, vs[k], xs[k].value, CatalogParse.SIZE_BYTES);
      }
    }
  }

  lemma AllInside(s: seq<byte>, vs: seq<Value>, xs: seq<Slot>)
    requires AllStand(s, vs, xs)
    ensures forall k | 0 <= k < |vs| :: CatalogParse.Inside(s, vs[k])
  {
    hide Stands, CatalogParse.Inside;
    forall k | 0 <= k < |vs|
      ensures CatalogParse.Inside(s, vs[k])
    {
      StandsNode(s, vs[k], xs[k].value);
    }
  }

  lemma KindStands(s: seq<byte>, v: Value, t: Tree)
    requires Stands(s, v, t)
    ensures v.kind == KindOf(t) && (v.kind == Object <==> IsObject(t))
  {
  }

  /** The sizes that parse_download_files adds up, if the files are well-formed. */
  function Totalled(s: seq<byte>, v: Value): Option<seq<Option<nat>>>
    requires CatalogParse.Inside(s, v)
  {
    var files := CatalogParse.Member(s, v, CatalogParse.FILES);
    if !files.Found? || CatalogParse.Elements(s, files.value).None? then None
    else CatalogParse.FileSizes(s, CatalogParse.Elements(s, files.value).value)
  }

  lemma FilesMean(s: seq<byte>, v: Value, t: Tree)
    requires Stands(s, v, t) && IsObject(t)
    ensures CatalogParse.Inside(s, v)
    ensures forall sizes :: Totalled(s, v) == Some(sizes) <==> Files(t, sizes)
  {
    hide Stands, CatalogParse.Inside, CatalogParse.Member, CatalogParse.Elements, CatalogParse.FileSizes, MemberOf,
         IsArray, Slots, SizedAs, Ascii;
    MemberStands(s, v, t, CatalogParse.FILES);
    var m := MemberOf(t, Ascii("files"));
    if m.Some? {
      var w := CatalogParse.Member(s, v, CatalogParse.FILES).value;
      ElementsStand(s, w, m.value);
      if IsArray(m.value) {
        var vs := CatalogParse.Elements(s, w).value;
        forall sizes: seq<Option<nat>>
          ensures CatalogParse.FileSizes(s, vs) == Some(sizes) <==> SizedAs(Slots(m.value), sizes)
        {
          SizesMean(s, vs, Slots(m.value), sizes);
        }
      }
    }
  }

  /** The file count saturates. */
  lemma {:induction false} CountSaturates(sizes: seq<Option<nat>>)
    requires forall k | 0 <= k < |sizes| :: sizes[k].Some? ==> sizes[k].value < CatalogParse.U64
    ensures CatalogParse.Aggregate(sizes).count == Min(|sizes|, 255)
  {
    if sizes != [] {
      CountSaturates(sizes[..|sizes| - 1]);
    }
  }

  lemma DownloadUnfold(s: seq<byte>, v: Value, d: Download)
    requires CatalogParse.Inside(s, v)
    ensures CatalogParse.ParseDownload(s, v) == Some(d)
            <==> && v.kind == Object && CatalogParse.Text(s, v, CatalogParse.ID, true) == Some(d.id)
                 && CatalogParse.Text(s, v, CatalogParse.LABEL, true) == Some(d.caption)
                 && CatalogParse.Text(s, v, CatalogParse.FORMAT, true) == Some(d.format)
                 && Totalled(s, v).Some? && Sized(Totalled(s, v).value, d)
  {
    hide CatalogParse.Inside, CatalogParse.Text, CatalogParse.Member, CatalogParse.Elements, CatalogParse.FileSizes,
         CatalogParse.Aggregate, CatalogParse.AggregateSize, Ascii;
    var sizes := Totalled(s, v);
    if sizes.Some? {
      CountSaturates(sizes.value);
    }
  }

  lemma DownloadMeans(s: seq<byte>, v: Value, t: Tree, d: Download)
    requires Stands(s, v, t)
    ensures CatalogParse.Inside(s, v) && (CatalogParse.ParseDownload(s, v) == Some(d) <==> Offers(t, d))
  {
    hide Stands, CatalogParse.Inside, CatalogParse.Text, CatalogParse.ParseDownload, Totalled, TextOf, IsObject,
         KindOf, Ascii, Files, Sized;
    StandsNode(s, v, t);
    KindStands(s, v, t);
    DownloadUnfold(s, v, d);
    if IsObject(t) {
      TextMeans(s, v, t, CatalogParse.ID, true);
      TextMeans(s, v, t, CatalogParse.LABEL, true);
      TextMeans(s, v, t, CatalogParse.FORMAT, true);
      FilesMean(s, v, t);
    }
  }

  lemma DownloadsMean(s: seq<byte>, v: Value, t: Tree, ds: seq<Download>)
    requires Stands(s, v, t) && IsObject(t)
    ensures CatalogParse.Inside(s, v)
    ensures CatalogParse.DownloadsOf(s, v) == Some(ds) <==> OffersAll(MemberOf(t, Ascii("downloads")), ds)
  {
    hide Stands, CatalogParse.Inside, CatalogParse.Member, CatalogParse.Elements, CatalogParse.ParseDownloads,
         CatalogParse.ParseDownload, MemberOf, IsArray, Slots, Offers, Ascii;
    MemberStands(s, v, t, CatalogParse.DOWNLOADS);
    var m := MemberOf(t, Ascii("downloads"));
    if m.Some? {
      var w := CatalogParse.Member(s, v, CatalogParse.DOWNLOADS).value;
      KindStands(s, w, m.value);
      ElementsStand(s, w, m.value);
      if IsArray(m.value) {
        OffersMean(s, CatalogParse.Elements(s, w).value, Slots(m.value), ds);
      }
    }
  }

  lemma OffersMean(s: seq<byte>, vs: seq<Value>, xs: seq<Slot>, ds: seq<Download>)
    requires AllStand(s, vs, xs)
    ensures forall k | 0 <= k < |vs| :: CatalogParse.Inside(s, vs[k])
    ensures CatalogParse.ParseDownloads(s, vs) == Some(ds)
            <==> |xs| == |ds| && forall k | 0 <= k < |ds| :: Offers(xs[k].value, ds[k])
  {
    hide Stands, CatalogParse.Inside, CatalogParse.ParseDownloads, CatalogParse.ParseDownload, Offers;
    AllInside(s, vs, xs);
    CatalogParse.DownloadsExactly(s, vs, ds);
    if |xs| == |ds| {
      forall k | 0 <= k < |xs|
        ensures CatalogParse.ParseDownload(s, vs[k]) == Some(ds[k]) <==> Offers(xs[k].value, ds[k])
      {
        DownloadMeans(s, vs[k], xs[k].value, ds[k]);
      }
    }
  }

  lemma RatingMeans(text: seq<byte>, rating: byte)
    ensures CatalogParse.ParseRating(text) == rating <==> Rated(text, rating)
  {
    assert RATINGS[0] == "Curious" && RATINGS[1] == "Average" && RATINGS[2] == "Great" && RATINGS[3] == "Legendary";
    RatingsDiffer();
    hide Ascii;
  }

  lemma RatingsDiffer()
    ensures Ascii("Curious") != Ascii("Average") && Ascii("Curious") != Ascii("Great")
    ensures Ascii("Curious") != Ascii("Legendary") && Ascii("Average") != Ascii("Great")
    ensures Ascii("Average") != Ascii("Legendary") && Ascii("Great") != Ascii("Legendary")
  {
    assert Ascii("Curious")[0] == 0x43 && Ascii("Average")[0] == 0x41;
  }

  lemma PackageUnfold(s: seq<byte>, v: Value, p: Package)
    requires CatalogParse.Inside(s, v)
    ensures CatalogParse.ParsePackage(s, v) == Some(p)
            <==> && v.kind == Object
                 && CatalogParse.Text(s, v, CatalogParse.ID, true) == Some(p.id)
                 && CatalogParse.Text(s, v, CatalogParse.NAME, true) == Some(p.name)
                 && CatalogParse.Text(s, v, CatalogParse.VENDOR, false) == Some(p.vendor)
                 && CatalogParse.Text(s, v, CatalogParse.PLATFORM_ID, false) == Some(p.platformId)
                 && CatalogParse.Text(s, v, CatalogParse.PLATFORM_NAME, false) == Some(p.platformName)
                 && CatalogParse.Text(s, v, CatalogParse.MODEL_ID, false) == Some(p.modelId)
                 && CatalogParse.Text(s, v, CatalogParse.MODEL_NAME, false) == Some(p.modelName)
                 && CatalogParse.Text(s, v, CatalogParse.VERSION, false) == Some(p.version)
                 && CatalogParse.Text(s, v, CatalogParse.DESCRIPTION, false) == Some(p.description)
                 && CatalogParse.Text(s, v, CatalogParse.RATING, false).Some?
                 && CatalogParse.ParseRating(CatalogParse.Text(s, v, CatalogParse.RATING, false).value) == p.rating
                 && CatalogParse.Number(s, v, CatalogParse.YEAR).Some?
                 && Released(CatalogParse.Number(s, v, CatalogParse.YEAR).value, p.year)
                 && CatalogParse.DownloadsOf(s, v) == Some(p.downloads)
  {
    hide CatalogParse.Inside, CatalogParse.Text, CatalogParse.Number, CatalogParse.DownloadsOf,
         CatalogParse.ParseRating, Ascii;
  }

  /** One element of the catalogue is a package exactly when its members say so. */
  lemma PackageMeans(s: seq<byte>, v: Value, t: Tree, p: Package)
    requires Stands(s, v, t)
    ensures CatalogParse.Inside(s, v) && (CatalogParse.ParsePackage(s, v) == Some(p) <==> Describes(t, p))
  {
    hide Stands, CatalogParse.Inside, CatalogParse.Text, CatalogParse.Number, CatalogParse.DownloadsOf,
         CatalogParse.ParseRating, CatalogParse.ParsePackage, TextOf, NumberOf, MemberOf, IsObject, KindOf, Ascii,
         Rated, Released, OffersAll;
    StandsNode(s, v, t);
    KindStands(s, v, t);
    PackageUnfold(s, v, p);
    if IsObject(t) {
      TextMeans(s, v, t, CatalogParse.ID, true);
      TextMeans(s, v, t, CatalogParse.NAME, true);
      TextMeans(s, v, t, CatalogParse.VENDOR, false);
      TextMeans(s, v, t, CatalogParse.PLATFORM_ID, false);
      TextMeans(s, v, t, CatalogParse.PLATFORM_NAME, false);
      TextMeans(s, v, t, CatalogParse.MODEL_ID, false);
      TextMeans(s, v, t, CatalogParse.MODEL_NAME, false);
      TextMeans(s, v, t, CatalogParse.VERSION, false);
      TextMeans(s, v, t, CatalogParse.DESCRIPTION, false);
      TextMeans(s, v, t, CatalogParse.RATING, false);
      NumberMeans(s, v, t, CatalogParse.YEAR);
      DownloadsMean(s, v, t, p.downloads);
      if TextOf(t, Ascii("rating")).Some? {
        RatingMeans(TextOf(t, Ascii("rating")).value, p.rating);
      }
    }
  }

  /** An accepted document is a catalogue exactly when its tree lists the packages. */
  lemma TreeMeans(s: seq<byte>, pre: Blank, t: Tree, post: Blank, ps: seq<Package>)
    requires Writes(s, pre, t, post)
    ensures CatalogParse.ParseCatalog(s) == Some(ps) <==> Lists(t, ps)
  {
    hide ParseText, Text, Loose, Depth, Stands, CatalogParse.ParseCatalog, CatalogParse.ParsePackage, Describes,
         CatalogParse.Inside, AllSpace, Slots, ChainShape, ChainSlots;
    TextComplete(pre, t, post);
    var v := Extent(t, |pre|);
    RootStands(s, pre, t, post);
    SlotShapeExtent(t, |pre|);
    CatalogParse.CatalogExactly(s, ps);
    if IsArray(t) {
      ContainerStands(s, v, t);
      var items := Shape(t, |pre|).items;
      if |items| == |ps| {
        forall k | 0 <= k < |items|
          ensures CatalogParse.Inside(s, items[k])
          ensures CatalogParse.ParsePackage(s, items[k]) == Some(ps[k]) <==> Describes(Slots(t)[k].value, ps[k])
        {
          PackageMeans(s, items[k], Slots(t)[k].value, ps[k]);
        }
      }
    }
  }

  lemma RootStands(s: seq<byte>, pre: Blank, t: Tree, post: Blank)
    requires Writes(s, pre, t, post)
    ensures Stands(s, Extent(t, |pre|), t)
  {
    hide Text, Loose, Depth, KindOf;
    assert s[|pre|..|pre| + |Text(t)|] == Text(t);
  }

  lemma SlotShapeExtent(t: Tree, at: nat)
    ensures Shape(t, at).extent == Extent(t, at) && (KindOf(t) == Array <==> IsArray(t))
  {
  }

  /** What the catalogue reader takes, for every document: it yields the packages exactly when the document is a JSON
      text, nested to depth at most 32, whose tree is an array of exactly these packages. */
  lemma CatalogMeans(s: seq<byte>, ps: seq<Package>)
    ensures CatalogParse.ParseCatalog(s) == Some(ps)
            <==> exists pre, t, post :: Writes(s, pre, t, post) && Lists(t, ps)
  {
    hide CatalogParse.ParseCatalog, ParseText, Writes, Lists;
    CatalogParse.CatalogExactly(s, ps);
    if CatalogParse.ParseCatalog(s) == Some(ps) {
      var pre, t, post := TextSound(s);
      TreeMeans(s, pre, t, post, ps);
    }
    if pre, t, post :| Writes(s, pre, t, post) && Lists(t, ps) {
      TreeMeans(s, pre, t, post, ps);
    }
  }
}
