/** Which directories a client that follows the LIST cursors sees completely. */
module FsTraversal {
  import opened Bytes
  import opened Records
  import ListPages
  import opened FsList

  /** The record tells name, type and size of the entry. */
  predicate Shows(r: Record, e: Dirent) { e.stat.StatOk? && r == File(e.stat.kind, e.name, e.stat.size) }

  /** Every entry is shown once, in order. */
  ghost predicate Complete(seen: seq<Record>, v: seq<Dirent>)
  {
    |seen| == |v| && forall i | 0 <= i < |v| :: Shows(seen[i], v[i])
  }

  /** The client finishes having seen every entry except "." and ".." once, in directory order. */
  ghost predicate Listed(opcode: byte, d: Listing)
    requires opcode < 0x80
  {
    exists pages: nat ::
      ClientList(opcode, d, pages).finished && Complete(ClientList(opcode, d, pages).seen, Visible(d.entries))
  }

  // ----- what a page can show -------------------------------------------------------------------------------------

  /** How many entries the loop takes from the stream: all of them, or those up to the one that stops it. */
  function Taken(es: seq<Dirent>, index: u16, cursor: u16, room: nat, taken: bool): (n: nat)
    ensures n <= |es|
    decreases |es|
  {
    if es == [] then 0
    else
      var e := es[0];
      if Hidden(e) then 1 + Taken(es[1..], index, cursor, room, taken)
      else if index < cursor then 1 + Taken(es[1..], (index + 1) % 0x1_0000, cursor, room, taken)
      else if 6 + |e.name| > FS_RECORD_MAX || e.stat.StatFail? || 6 + |e.name| > room then 1
      else 1 + Taken(es[1..], (index + 1) % 0x1_0000, cursor, room - 6 - |e.name|, true)
  }

  /** The records show some of the first `n` entries, which are visible and have names that fit. */
  ghost predicate Among(es: seq<Dirent>, n: nat, rs: seq<Record>)
    requires n <= |es|
  {
    forall q | q in rs :: exists j: nat :: j < n && Shows(q, es[j]) && Sane(es[j]) && !Hidden(es[j])
  }

  lemma AmongRest(es: seq<Dirent>, n: nat, rs: seq<Record>)
    requires n < |es| && Among(es[1..], n, rs)
    ensures Among(es, n + 1, rs)
    ensures Sane(es[0]) && !Hidden(es[0]) ==> Among(es, n + 1, [RecordOf(es[0])] + rs)
  {
    hide Hidden;
    forall q | q in rs
      ensures exists j: nat :: j < n + 1 && Shows(q, es[j]) && Sane(es[j]) && !Hidden(es[j])
    {
      var j: nat :| j < n && Shows(q, es[1..][j]) && Sane(es[1..][j]) && !Hidden(es[1..][j]);
      assert es[1..][j] == es[j + 1];
    }
    if Sane(es[0]) && !Hidden(es[0]) {
      assert Shows(RecordOf(es[0]), es[0]);
    }
  }

  lemma NoneAmong(es: seq<Dirent>, n: nat)
    requires n <= |es|
    ensures Among(es, n, [])
  {
  }

  lemma SaneEntry(e: Dirent)
    ensures Sane(e) <==> 6 + |e.name| <= FS_RECORD_MAX && e.stat.StatOk?
    ensures Sane(e) ==> |e.name| <= 255
  {
  }

  lemma TakenTurn(es: seq<Dirent>, index: u16, cursor: u16, room: nat, taken: bool)
    ensures Taken(es, index, cursor, room, taken)
            == if es == [] then 0
               else
                 var e, rest, up := es[0], es[1..], (index + 1) % 0x1_0000;
                 if Hidden(e) then 1 + Taken(rest, index, cursor, room, taken)
                 else if index < cursor then 1 + Taken(rest, up, cursor, room, taken)
                 else if !Sane(e) || 6 + |e.name| > room then 1
                 else 1 + Taken(rest, up, cursor, room - 6 - |e.name|, true)
  {
    hide Hidden;
  }

  /** The loop did not run to the proper end of the stream. */
  predicate Stopped(r: PageResult, end: Errno) { r.Page? && (r.next != CURSOR_END || end != NoError) }

  /** A page shows entries it took from its stream, and one that does not end the listing stopped at a later entry. */
  ghost predicate Fair(es: seq<Dirent>, end: Errno, r: PageResult, n: nat)
    requires n <= |es|
  {
    && (r.Page? ==> Among(es, n, r.records))
    && (Stopped(r, end) ==> n > 0 && !Hidden(es[n - 1]) && Among(es, n - 1, r.records))
  }

  /** So does every page the loop makes. */
  lemma {:induction false} PageFrom(es: seq<Dirent>, end: Errno, index: u16, cursor: u16, room: nat, taken: bool)
    ensures Fair(es, end, Fill(es, end, index, cursor, room, taken), Taken(es, index, cursor, room, taken))
    decreases |es|
  {
    hide Fill, Taken, Fair, RecordOf, Hidden, Sane, StatusFromErrno, ListPages.Cons;
    TakenTurn(es, index, cursor, room, taken);
    if es == [] {
      FillEmpty(end, index, cursor, room, taken);
      EmptyFair(es, end, Fill(es, end, index, cursor, room, taken));
    } else {
      FillTurn(es, end, index, cursor, room, taken);
      var e, rest, up := es[0], es[1..], (index + 1) % 0x1_0000;
      SaneEntry(e);
      if Hidden(e) {
        PageFrom(rest, end, index, cursor, room, taken);
        FairBehind(es, end, Fill(rest, end, index, cursor, room, taken), Taken(rest, index, cursor, room, taken));
      } else if index < cursor {
        PageFrom(rest, end, up, cursor, room, taken);
        FairBehind(es, end, Fill(rest, end, up, cursor, room, taken), Taken(rest, up, cursor, room, taken));
      } else if Sane(e) && 6 + |e.name| <= room {
        var less := room - 6 - |e.name|;
        PageFrom(rest, end, up, cursor, less, true);
        FairBehind(es, end, Fill(rest, end, up, cursor, less, true), Taken(rest, up, cursor, less, true));
      } else {
        StopFair(es, end, Fill(es, end, index, cursor, room, taken));
      }
    }
  }

  lemma EmptyFair(es: seq<Dirent>, end: Errno, r: PageResult)
    requires r.Failed? || (end == NoError && r == ListPages.Page([], CURSOR_END))
    ensures Fair(es, end, r, 0)
  {
  }

  lemma StopFair(es: seq<Dirent>, end: Errno, r: PageResult)
    requires es != [] && !Hidden(es[0]) && (r.Failed? || r.records == [])
    ensures Fair(es, end, r, 1)
  {
  }

  lemma FairBehind(es: seq<Dirent>, end: Errno, r: PageResult, n: nat)
    requires es != [] && n < |es| && Fair(es[1..], end, r, n)
    ensures Fair(es, end, r, n + 1)
    ensures Sane(es[0]) && !Hidden(es[0]) ==> Fair(es, end, ListPages.Cons(RecordOf(es[0]), r), n + 1)
  {
    hide Among, RecordOf, Hidden, Sane;
    if r.Page? {
      AmongRest(es, n, r.records);
      if Stopped(r, end) {
        AmongRest(es, n - 1, r.records);
        assert es[1..][n - 1] == es[n];
      }
    }
  }

  lemma AmongJoin(es: seq<Dirent>, n: nat, rs: seq<Record>, m: nat, ss: seq<Record>, k: nat)
    requires n <= k <= |es| && m <= k && Among(es, n, rs) && Among(es, m, ss)
    ensures Among(es, k, rs + ss)
  {
    hide Hidden, Sane, Shows;
    forall q | q in rs + ss
      ensures exists j: nat :: j < k && Shows(q, es[j]) && Sane(es[j]) && !Hidden(es[j])
    {
      if q in rs {
        var j: nat :| j < n && Shows(q, es[j]) && Sane(es[j]) && !Hidden(es[j]);
      } else {
        var j: nat :| j < m && Shows(q, es[j]) && Sane(es[j]) && !Hidden(es[j]);
      }
    }
  }

  // ----- what a listing can show ----------------------------------------------------------------------------------

  /** How many of the visible entries can be shown at all: behind the last one the stream may end in an error, and that
      page is lost. */
  function Showable(v: seq<Dirent>, end: Errno): (n: nat)
    ensures n <= |v|
  {
    if end == NoError || v == [] then |v| else |v| - 1
  }

  /** A page over visible entries. */
  lemma PageShows(v: seq<Dirent>, end: Errno, cursor: u16)
    requires NoneHidden(v)
    ensures var r := Fill(v, end, 0, cursor, ROOM, false);
            r.Page? ==> (end != NoError ==> v != []) && Among(v, Showable(v, end), r.records)
  {
    hide Fill, Taken, NoneHidden, Hidden, Among;
    PageFrom(v, end, 0, cursor, ROOM, false);
    var r, n := Fill(v, end, 0, cursor, ROOM, false), Taken(v, 0, cursor, ROOM, false);
    if r.Page? {
      NoneAmong(v, 0);
      AmongJoin(v, if end == NoError then n else n - 1, r.records, 0, [], Showable(v, end));
      assert r.records + [] == r.records;
    }
  }

  /** Whatever a client has seen shows entries that can be shown. */
  lemma {:induction false} SeenAmong(opcode: byte, d: Listing, pages: nat)
    requires opcode < 0x80
    ensures var v, w := Visible(d.entries), ClientList(opcode, d, pages);
            Among(v, Showable(v, d.end), w.seen) && (w.finished && d.end != NoError ==> v != [])
  {
    hide Fill, Turned, ListAnswer, Visible, Among, Showable;
    var v := Visible(d.entries);
    if pages == 0 {
      NoneAmong(v, Showable(v, d.end));
    } else {
      SeenAmong(opcode, d, pages - 1);
      var w := ClientList(opcode, d, pages - 1);
      if !w.finished {
        VisibleFacts(d.entries);
        TurnedPage(opcode, d, w);
        FillVisible(d.entries, d.end, 0, w.cursor, ROOM, false);
        PageShows(v, d.end, w.cursor);
        var r := Fill(d.entries, d.end, 0, w.cursor, ROOM, false);
        if r.Page? {
          var n := Showable(v, d.end);
          AmongJoin(v, n, w.seen, n, r.records, n);
        }
      }
    }
  }

  /** A complete view needs names that fit, answers from fstatat, and a stream that ends without error. */
  lemma CompleteNeeds(v: seq<Dirent>, end: Errno, seen: seq<Record>)
    requires Distinct(v) && Complete(seen, v) && Among(v, Showable(v, end), seen)
    ensures AllSane(v) && (v != [] ==> end == NoError)
  {
    hide Hidden;
    forall i | 0 <= i < |v|
      ensures Sane(v[i])
    {
      assert seen[i] in seen && Shows(seen[i], v[i]);
    }
    if v != [] {
      assert seen[|v| - 1] in seen && Shows(seen[|v| - 1], v[|v| - 1]);
    }
  }

  /** For a directory that can be read, completeness is equality with its records. */
  lemma CompleteIsShown(d: Listing, seen: seq<Record>)
    requires Readable(d)
    ensures Complete(seen, Visible(d.entries)) <==> seen == Shown(d)
  {
    hide RecordsOf, Visible;
    var v := Visible(d.entries);
    forall i: nat | i < |v|
      ensures Shows(RecordsOf(v)[i], v[i])
    {
      RecordsAt(v, i);
    }
    if Complete(seen, v) {
      forall i | 0 <= i < |v|
        ensures seen[i] == RecordsOf(v)[i]
      {
        assert Shows(seen[i], v[i]) && Shows(RecordsOf(v)[i], v[i]);
      }
    }
  }

  /** The exact condition for a complete listing: every name has at most 243 bytes and every fstatat succeeds, the
      stream ends without error, there are at most 65536 entries, and no page begins with entry 65535, whose number is
      the end marker. With at most 65535 entries no page can begin there. */
  lemma ListTraversalExactly(opcode: byte, d: Listing)
    requires opcode < 0x80 && Distinct(Visible(d.entries))
    ensures var v := Visible(d.entries);
            Listed(opcode, d) <==> Readable(d) && |v| <= 0x1_0000 && (|v| == 0x1_0000 ==> !MarkerPage(v))
  {
    hide ClientList, Visible, Distinct, PageStart, Complete, Among, Showable;
    var v := Visible(d.entries);
    forall pages: nat | ClientList(opcode, d, pages).finished && Complete(ClientList(opcode, d, pages).seen, v)
      ensures Readable(d)
    {
      SeenAmong(opcode, d, pages);
      CompleteNeeds(v, d.end, ClientList(opcode, d, pages).seen);
    }
    if Readable(d) {
      hide Shown;
      ReadableTraversal(opcode, d);
      forall pages: nat
        ensures Complete(ClientList(opcode, d, pages).seen, v) <==> ClientList(opcode, d, pages).seen == Shown(d)
      {
        CompleteIsShown(d, ClientList(opcode, d, pages).seen);
      }
    }
  }

  /** One file with a name of 244 bytes is enough: nothing is ever listed. */
  lemma LongNameHides(opcode: byte)
    requires opcode < 0x80
    ensures !Listed(opcode, Listing([Dirent(seq(244, i => 0x61), StatOk(1, 0))], NoError))
  {
    hide Listed;
    var d := Listing([Dirent(seq(244, i => 0x61), StatOk(1, 0))], NoError);
    VisibleAll(d.entries);
    ListTraversalExactly(opcode, d);
    assert !Sane(d.entries[0]);
  }
}
