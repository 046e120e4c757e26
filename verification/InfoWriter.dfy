/** The code that writes INFO pages into the response buffer, proved against InfoPages. */
module InfoWriter {
  import opened Bytes
  import Utf8
  import opened Records
  import opened Catalog
  import opened ListPages
  import opened InfoPages
  import opened InfoTable

  /** With the room of a full record no text of a download is cut below its own limit. */
  lemma DownloadFields(d: Download)
    ensures DownloadTlv(d, ENTRY_MAX) == Some(Tlv(INFO_DOWNLOAD, DownloadValue(
              CutText(d.id, 256, 64).value, CutText(d.caption, 256, 96).value, CutText(d.format, 256, 32).value,
              d.size, d.files)))
  {
    hide Utf8.StepBack;
  }

  /** A download value can be taken apart again: no two downloads whose texts keep their limits are written the
      same. */
  lemma DownloadValueInjective(d: Download, e: Download)
    requires |d.id| <= 64 && |d.caption| <= 96 && |d.format| <= 32
    requires |e.id| <= 64 && |e.caption| <= 96 && |e.format| <= 32
    requires DownloadValue(d.id, d.caption, d.format, d.size, d.files)
             == DownloadValue(e.id, e.caption, e.format, e.size, e.files)
    ensures d == e
  {
    DownloadReadBack(d);
    DownloadReadBack(e);
  }

  method MakeStringTlv(kind: byte, text: seq<byte>, record: array<byte>, capacity: nat) returns (size: nat)
    requires capacity <= record.Length
    modifies record
    ensures var r := StringTlv(kind, text, capacity);
            if r.None? then size == 0 else size == |Encode(r.value)| && record[..size] == Encode(r.value)
  {
    if capacity < 2 {
      return 0;
    }
    var textSize := |text|;
    if textSize > capacity - 2 {
      textSize := Utf8.StepBackLoop(text, capacity - 2);
    }
    if textSize > 255 {
      textSize := 255;
    }
    size := textSize + 2;
    PutTlv(kind, text[..textSize], record);
  }

  method PutTlv(kind: byte, value: seq<byte>, record: array<byte>)
    requires |value| <= 255 && 2 + |value| <= record.Length
    modifies record
    ensures record[..2 + |value|] == Encode(Tlv(kind, value))
  {
    record[0] := kind;
    PutCounted(record, 1, value);
    assert record[..2 + |value|] == [kind] + ([|value|] + value);
  }

  /** Writes a counted text at `at` within `capacity` bytes; 0 if not even the count fits. */
  method AppendCountedText(output: array<byte>, at: nat, capacity: nat, text: seq<byte>, maximum: nat)
    returns (written: nat)
    requires at + capacity <= output.Length
    modifies output
    ensures var r := CutText(text, capacity, maximum);
            if r.None? then written == 0 && output[..] == old(output[..])
            else
              && written == 1 + |r.value| <= capacity
              && output[..] == old(output[..at]) + ([|r.value|] + r.value) + old(output[at + written..])
  {
    if capacity < 1 {
      return 0;
    }
    var textSize := |text|;
    if textSize > maximum {
      textSize := maximum;
    }
    if textSize > capacity - 1 {
      textSize := capacity - 1;
    }
    if textSize > 255 {
      textSize := 255;
    }
    textSize := Utf8.StepBackLoop(text, textSize);
    PutCounted(output, at, text[..textSize]);
    written := textSize + 1;
  }

  /** Appends one more text to a download record whose value so far is `value`. */
  method AppendField(
      record: array<byte>, out: nat, capacity: nat, text: seq<byte>, maximum: nat, ghost value: seq<byte>)
    returns (written: nat)
    requires 2 <= out && out + 5 <= capacity <= record.Length && record[2..out] == value
    modifies record
    ensures record[0] == old(record[0])
    ensures var r := CutText(text, capacity - out - 5, maximum);
            if r.None? then written == 0
            else
              && written == 1 + |r.value| && out + written + 5 <= capacity
              && record[2..out + written] == value + ([|r.value|] + r.value)
  {
    hide CutText;
    written := AppendCountedText(record, out, capacity - out - 5, text, maximum);
    if written > 0 {
      assert record[2..out] == value;
      assert record[2..out + written] == record[2..out] + record[out..out + written];
    }
  }

  /** The three texts of a download record, each cut to the room the ones before it leave. */
  lemma MadeDownload(d: Download, capacity: nat)
    ensures capacity < 10 ==> DownloadTlv(d, capacity).None?
    ensures capacity >= 10 ==>
              var id := CutText(d.id, capacity - 7, 64);
              && id.Some?
              && var out := 3 + |id.value|;
                 var caption := if out + 5 <= capacity then CutText(d.caption, capacity - out - 5, 96) else None;
                 if caption.None? then DownloadTlv(d, capacity).None?
                 else
                   var next := out + 1 + |caption.value|;
                   var format := if next + 5 <= capacity then CutText(d.format, capacity - next - 5, 32) else None;
                   if format.None? then DownloadTlv(d, capacity).None?
                   else DownloadTlv(d, capacity)
                        == Some(Tlv(INFO_DOWNLOAD,
                                    ([|id.value|] + id.value) + ([|caption.value|] + caption.value)
                                    + ([|format.value|] + format.value) + (WriteU32(d.size) + [d.files])))
  {
    hide WriteU32;
  }

  method MakeDownloadTlv(d: Download, record: array<byte>, capacity: nat) returns (size: nat)
    requires capacity <= record.Length
    modifies record
    ensures var r := DownloadTlv(d, capacity);
            if r.None? then size == 0 else size == |Encode(r.value)| && record[..size] == Encode(r.value)
  {
    hide DownloadTlv, DownloadValue, CutText, Encode, Countable, WriteU32;
    MadeDownload(d, capacity);
    if capacity < 10 {
      return 0;
    }
    record[0] := INFO_DOWNLOAD;
    var out := 2;
    var written := AppendField(record, out, capacity, d.id, 64, []);
    if written == 0 {
      assert false;  // ten bytes always leave room for the first count
    }
    ghost var id := CutText(d.id, capacity - out - 5, 64).value;
    ghost var value := [|id|] + id;
    out := out + written;
    assert record[2..out] == value;

    written := AppendField(record, out, capacity, d.caption, 96, value);
    if written == 0 {
      return 0;
    }
    ghost var caption := CutText(d.caption, capacity - out - 5, 96).value;
    value := value + ([|caption|] + caption);
    out := out + written;

    size := AppendFormat(d, record, out, capacity, value);
  }

  /** The last text of a record, and the fixed bytes behind it. */
  method AppendFormat(d: Download, record: array<byte>, out: nat, capacity: nat, ghost value: seq<byte>)
    returns (size: nat)
    requires 2 <= out <= 164 && out + 5 <= capacity <= record.Length
    requires record[0] == INFO_DOWNLOAD && record[2..out] == value
    modifies record
    ensures var format := CutText(d.format, capacity - out - 5, 32);
            if format.None? then size == 0
            else
              var whole := value + ([|format.value|] + format.value) + (WriteU32(d.size) + [d.files]);
              && |whole| <= 255 && size == |Encode(Tlv(INFO_DOWNLOAD, whole))| <= record.Length
              && record[..size] == Encode(Tlv(INFO_DOWNLOAD, whole))
  {
    hide CutText, Encode, WriteU32;
    var written := AppendField(record, out, capacity, d.format, 32, value);
    if written == 0 {
      return 0;
    }
    ghost var format := CutText(d.format, capacity - out - 5, 32).value;
    ghost var texts, last := value + ([|format|] + format), WriteU32(d.size) + [d.files];
    FinishRecord(record, out + written, texts, WriteU32(d.size) + [d.files]);
    size := out + written + 5;
    TlvBytes(INFO_DOWNLOAD, texts + last);
  }

  /** The last five bytes of a download record, and the count of its value. */
  method FinishRecord(record: array<byte>, out: nat, ghost value: seq<byte>, last: seq<byte>)
    requires 2 <= out && out + 5 <= record.Length && out + 3 <= 255
    requires |last| == 5 && record[2..out] == value && record[0] == INFO_DOWNLOAD
    modifies record
    ensures record[..out + 5] == [INFO_DOWNLOAD, |value| + 5] + (value + last)
  {
    CopyInto(record, out, last);
    assert record[2..out + 5] == value + last;
    record[1] := out + 3;
    assert record[2..out + 5] == value + last;
    assert record[..out + 5] == [record[0], record[1]] + record[2..out + 5];
  }

  lemma TlvBytes(kind: byte, value: seq<byte>)
    requires |value| <= 255
    ensures Countable(Tlv(kind, value)) && Encode(Tlv(kind, value)) == [kind, |value|] + value
  {
  }

  method MakeInfoRecord(p: Package, cursor: nat, record: array<byte>, capacity: nat) returns (size: nat)
    requires capacity <= record.Length
    modifies record
    ensures var r := MakeInfo(p, cursor, capacity);
            if r.None? then size == 0 else size == |Encode(r.value)| && record[..size] == Encode(r.value)
  {
    hide StringTlv, DownloadTlv, Encode, Countable;
    match cursor {
      case 0 => size := MakeStringTlv(1, p.id, record, capacity);
      case 1 => size := MakeStringTlv(2, p.name, record, capacity);
      case 2 => size := MakeStringTlv(3, p.vendor, record, capacity);
      case 3 => size := MakeStringTlv(4, p.platformId, record, capacity);
      case 4 => size := MakeStringTlv(5, p.platformName, record, capacity);
      case 5 => size := MakeStringTlv(6, p.version, record, capacity);
      case 6 =>
        if capacity < 4 {
          return 0;
        }
        TlvBytes(7, WriteU16(p.year));
        record[0], record[1] := 7, 2;
        record[2], record[3] := p.year % 0x100, p.year / 0x100;
        assert record[..4] == [7, 2] + WriteU16(p.year);
        size := 4;
      case 7 =>
        if capacity < 3 {
          return 0;
        }
        TlvBytes(8, [p.rating]);
        record[0], record[1], record[2] := 8, 1, p.rating;
        assert record[..3] == [8, 1] + [p.rating];
        size := 3;
      case 8 => size := MakeStringTlv(9, p.description, record, capacity);
      case _ =>
        if cursor - FIXED >= |p.downloads| {
          return 0;
        }
        size := MakeDownloadTlv(p.downloads[cursor - FIXED], record, capacity);
    }
  }

  /** What is written so far and what the loop will still add. */
  ghost predicate Progress(
      p: Package, start: u16, capacity: nat, cursor: u16, out: nat, records: seq<Record>, b: seq<byte>)
  {
    && HEADER_SIZE <= out <= capacity <= |b| && AllOf(records, Values) && 2 * |records| <= out - HEADER_SIZE
    && b[HEADER_SIZE..out] == EncodeAll(records, Values)
    && Prefix(records, InfoBuild(p, cursor, capacity - out, records != []))
       == InfoBuild(p, start, capacity - HEADER_SIZE, false)
  }

  /** How far the bytes written reach. */
  lemma ProgressBounds(
      p: Package, start: u16, capacity: nat, cursor: u16, out: nat, records: seq<Record>, b: seq<byte>)
    requires Progress(p, start, capacity, cursor, out, records, b)
    ensures HEADER_SIZE <= out <= capacity <= |b| && AllOf(records, Values) && 2 * |records| <= out - HEADER_SIZE
    ensures b[HEADER_SIZE..out] == EncodeAll(records, Values)
  {
  }

  lemma ProgressStart(p: Package, start: u16, capacity: nat, b: seq<byte>)
    requires HEADER_SIZE <= capacity <= |b|
    ensures Progress(p, start, capacity, start, HEADER_SIZE, [], b)
  {
    hide InfoBuild;
    var r := InfoBuild(p, start, capacity - HEADER_SIZE, false);
    if r.Page? {
      assert [] + r.records == r.records;
    }
  }

  lemma ProgressAdds(
      p: Package, start: u16, capacity: nat, cursor: u16, out: nat, records: seq<Record>, b: seq<byte>,
      r: Record, c: seq<byte>)
    requires Progress(p, start, capacity, cursor, out, records, b) && cursor < RecordCount(p)
    requires var e := MakeInfo(p, cursor, ENTRY_MAX);
             && e.Some?
             && if |Encode(e.value)| <= capacity - out then r == e.value
                else records == [] && MakeInfo(p, cursor, capacity - out) == Some(r)
    requires |c| == |b| && Countable(r) && r.Tlv? && out + |Encode(r)| <= capacity
    requires c[HEADER_SIZE..out] == b[HEADER_SIZE..out] && At(c, out, Encode(r))
    ensures Progress(p, start, capacity, (cursor + 1) % 0x1_0000, out + |Encode(r)|, records + [r], c)
  {
    hide MakeInfo, Encode, AllOf, RecordCount;
    var next := out + |Encode(r)|;
    SingleValue(r);
    EncodeAllAppend(records, [r], Values);
    assert c[HEADER_SIZE..next] == c[HEADER_SIZE..out] + c[out..next];
    PrefixCons(records, r, InfoBuild(p, (cursor + 1) % 0x1_0000, capacity - next, true));
  }

  lemma SingleValue(r: Record)
    requires Countable(r) && r.Tlv?
    ensures AllOf([r], Values) && EncodeAll([r], Values) == Encode(r)
  {
    assert [r][1..] == [];
    assert Encode(r) + [] == Encode(r);
  }

  lemma ProgressStops(
      p: Package, start: u16, capacity: nat, cursor: u16, out: nat, records: seq<Record>, b: seq<byte>)
    requires Progress(p, start, capacity, cursor, out, records, b)
    ensures cursor >= RecordCount(p) ==>
              InfoBuild(p, start, capacity - HEADER_SIZE, false) == Page(records, CURSOR_END)
    ensures cursor < RecordCount(p) ==>
              var e := MakeInfo(p, cursor, ENTRY_MAX);
              && (e.None? ==> InfoBuild(p, start, capacity - HEADER_SIZE, false) == Failed(STATUS_INTERNAL_ERROR))
              && (e.Some? && |Encode(e.value)| > capacity - out ==>
                    if records != [] then
                      InfoBuild(p, start, capacity - HEADER_SIZE, false) == Page(records, cursor)
                    else MakeInfo(p, cursor, capacity - out).None? ==>
                      InfoBuild(p, start, capacity - HEADER_SIZE, false) == Failed(STATUS_TOO_LARGE))
  {
    hide MakeInfo, Encode, AllOf, RecordCount;
    assert records + [] == records;
  }

  /** write_info_page. The loop ends because every record takes room. */
  method WriteInfoPage(opcode: byte, p: Package, start: u16, response: array<byte>) returns (size: int)
    requires opcode < 0x80 && 2 <= response.Length <= PACKET_MAX
    modifies response
    ensures var b := InfoAnswer(opcode, p, start, response.Length);
            size == |b| && size <= response.Length && response[..size] == b
  {
    hide InfoBuild, MakeInfo, Encode, EncodeAll, Progress, AllOf;
    var recordCount, capacity := RecordCount(p), response.Length;
    if capacity < HEADER_SIZE || start > recordCount {
      size := WriteError(opcode, STATUS_BAD_REQUEST, response);
      return;
    }
    ghost var records: seq<Record> := [];
    var cursor: u16, nextCursor: u16, tlvCount: byte, out: nat := start, CURSOR_END, 0, HEADER_SIZE;
    ProgressStart(p, start, capacity, response[..]);
    var stopped := false;
    while cursor < recordCount && !stopped
      invariant tlvCount == |records|
      invariant Progress(p, start, capacity, cursor, out, records, response[..])
      invariant !stopped ==> nextCursor == CURSOR_END
      invariant stopped ==> Page(records, nextCursor) == InfoBuild(p, start, capacity - HEADER_SIZE, false)
      decreases capacity - out, !stopped
    {
      ProgressBounds(p, start, capacity, cursor, out, records, response[..]);
      ProgressStops(p, start, capacity, cursor, out, records, response[..]);
      var record := new byte[ENTRY_MAX];
      var recordSize := MakeInfoRecord(p, cursor, record, ENTRY_MAX);
      if recordSize == 0 {
        assert false;  // every record below the count can be made in a full record buffer
      }
      ghost var r := MakeInfo(p, cursor, ENTRY_MAX).value;
      if recordSize > capacity - out {
        if tlvCount == 0 {
          recordSize := MakeInfoRecord(p, cursor, record, capacity - out);
          if recordSize == 0 {
            size := WriteError(opcode, STATUS_TOO_LARGE, response);
            return;
          }
          r := MakeInfo(p, cursor, capacity - out).value;
        } else {
          nextCursor, stopped := cursor, true;
          continue;
        }
      }
      ghost var before := response[..];
      CopyInto(response, out, record[..recordSize]);
      ProgressAdds(p, start, capacity, cursor, out, records, before, r, response[..]);
      records := records + [r];
      out, tlvCount, cursor := out + recordSize, tlvCount + 1, (cursor + 1) % 0x1_0000;
    }
    if !stopped {
      ProgressStops(p, start, capacity, cursor, out, records, response[..]);
    }
    ProgressBounds(p, start, capacity, cursor, out, records, response[..]);
    FinishPage(opcode, nextCursor, tlvCount, records, Values, response, out);
    size := out;
  }
}
