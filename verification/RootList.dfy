/** LIST of the root. The directory stream reads through a duplicate of the root descriptor, which shares its position:
    every request goes on where the last one stopped reading. */
module RootList {
  import opened Bytes
  import opened Records
  import ListPages
  import opened FsList
  import opened FsTraversal

  /** A client that lists the root, and where the stream stands. */
  datatype Reading = Reading(walk: Walk, pos: nat)

  /** `after(k)` is the position that request number `k` leaves behind. */
  function ClientRoot(opcode: byte, d: Listing, start: nat, after: nat -> nat, pages: nat): (r: Reading)
    requires opcode < 0x80
  {
    if pages == 0 then Reading(Walk([], false, 0), start)
    else
      var r := ClientRoot(opcode, d, start, after, pages - 1);
      if r.walk.finished then r
      else
        Reading(Turned(Directory, r.walk, ListAnswer(opcode, From(d, r.pos), r.walk.cursor, PACKET_MAX)), after(pages))
  }

  /** The rest of the stream. */
  function From(d: Listing, pos: nat): Listing { Listing(if pos <= |d.entries| then d.entries[pos..] else [], d.end) }

  /** Every request leaves the stream behind the entries it took; the library may have read ahead. */
  ghost predicate ReadsOn(opcode: byte, d: Listing, start: nat, after: nat -> nat)
    requires opcode < 0x80
  {
    forall k: nat ::
      var r := ClientRoot(opcode, d, start, after, k);
      !r.walk.finished ==>
        r.pos + Taken(From(d, r.pos).entries, 0, r.walk.cursor, ROOM, false) <= after(k + 1)
  }

  /** The client finishes having seen every entry except "." and ".." once, in directory order. */
  ghost predicate RootListed(opcode: byte, d: Listing, start: nat, after: nat -> nat)
    requires opcode < 0x80
  {
    exists pages: nat ::
      ClientRoot(opcode, d, start, after, pages).walk.finished
      && Complete(ClientRoot(opcode, d, start, after, pages).walk.seen, Visible(d.entries))
  }

  /** One request: what the client makes of the page, and how far the stream is read. */
  lemma RootStep(opcode: byte, d: Listing, start: nat, after: nat -> nat, k: nat)
    requires opcode < 0x80 && ReadsOn(opcode, d, start, after)
    requires !ClientRoot(opcode, d, start, after, k).walk.finished
    ensures var r, t := ClientRoot(opcode, d, start, after, k), ClientRoot(opcode, d, start, after, k + 1);
            var rest := From(d, r.pos).entries;
            var page := Fill(rest, d.end, 0, r.walk.cursor, ROOM, false);
            var n := Taken(rest, 0, r.walk.cursor, ROOM, false);
            && r.pos + n <= t.pos && Fair(rest, d.end, page, n)
            && t.walk == if page.Page? then Walk(r.walk.seen + page.records, page.next == CURSOR_END, page.next)
                         else r.walk
  {
    hide Fill, Taken, Turned, ListAnswer, Fair;
    var r := ClientRoot(opcode, d, start, after, k);
    TurnedPage(opcode, From(d, r.pos), r.walk);
    PageFrom(From(d, r.pos).entries, d.end, 0, r.walk.cursor, ROOM, false);
  }

  lemma RootStays(opcode: byte, d: Listing, start: nat, after: nat -> nat, k: nat)
    requires opcode < 0x80 && ClientRoot(opcode, d, start, after, k).walk.finished
    ensures ClientRoot(opcode, d, start, after, k + 1) == ClientRoot(opcode, d, start, after, k)
  {
  }

  // ----- entries that are read over -------------------------------------------------------------------------------

  /** None of the records shows the entry. */
  ghost predicate Unshown(rs: seq<Record>, e: Dirent) { forall q | q in rs :: !Shows(q, e) }

  /** The entry has been read over, and the client has not seen it. */
  ghost predicate Missed(d: Listing, r: Reading, i: nat)
    requires i < |d.entries|
  {
    i < r.pos && Unshown(r.walk.seen, d.entries[i])
  }

  /** A page shows no entry from outside the part of the stream it took. */
  lemma PageMisses(d: Listing, pos: nat, n: nat, rs: seq<Record>, i: nat)
    requires Distinct(d.entries) && i < |d.entries| && (i < pos || pos + n <= i)
    requires n <= |From(d, pos).entries| && Among(From(d, pos).entries, n, rs)
    ensures Unshown(rs, d.entries[i])
  {
    hide Hidden, Sane;
    var es, rest := d.entries, From(d, pos).entries;
    forall q | q in rs
      ensures !Shows(q, es[i])
    {
      var j: nat :| j < n && Shows(q, rest[j]);
      assert rest[j] == es[pos + j];
    }
  }

  lemma UnshownJoin(a: seq<Record>, b: seq<Record>, e: Dirent)
    requires Unshown(a, e) && Unshown(b, e)
    ensures Unshown(a + b, e)
  {
    hide Shows;
  }

  lemma FairAmong(es: seq<Dirent>, end: Errno, r: PageResult, n: nat)
    requires n <= |es| && Fair(es, end, r, n)
    ensures r.Page? ==> Among(es, n, r.records)
    ensures Stopped(r, end) ==> n > 0 && !Hidden(es[n - 1]) && Among(es, n - 1, r.records)
  {
  }

  /** An entry that was read over unseen is never shown. */
  lemma {:induction false} StaysMissed(
      opcode: byte, d: Listing, start: nat, after: nat -> nat, i: nat, from: nat, k: nat)
    requires opcode < 0x80 && Distinct(d.entries) && ReadsOn(opcode, d, start, after) && from <= k
    requires i < |d.entries| && Missed(d, ClientRoot(opcode, d, start, after, from), i)
    ensures Missed(d, ClientRoot(opcode, d, start, after, k), i)
  {
    hide ClientRoot, Fill, Taken, Fair, Among, Hidden, Distinct, ReadsOn, Unshown;
    if from < k {
      StaysMissed(opcode, d, start, after, i, from, k - 1);
      var r := ClientRoot(opcode, d, start, after, k - 1);
      if r.walk.finished {
        RootStays(opcode, d, start, after, k - 1);
      } else {
        RootStep(opcode, d, start, after, k - 1);
        var rest := From(d, r.pos).entries;
        var page := Fill(rest, d.end, 0, r.walk.cursor, ROOM, false);
        var n := Taken(rest, 0, r.walk.cursor, ROOM, false);
        FairAmong(rest, d.end, page, n);
        if page.Page? {
          PageMisses(d, r.pos, n, page.records, i);
          UnshownJoin(r.walk.seen, page.records, d.entries[i]);
        }
      }
    }
  }

  lemma AssociateEntries(e: Dirent, a: seq<Dirent>, b: seq<Dirent>)
    ensures [e] + (a + b) == ([e] + a) + b
  {
  }

  lemma {:induction false} VisibleAppend(a: seq<Dirent>, b: seq<Dirent>)
    ensures Visible(a + b) == Visible(a) + Visible(b)
  {
    hide Hidden, Visible;
    VisibleTurn(a);
    if a == [] {
      assert a + b == b && [] + Visible(b) == Visible(b);
    } else {
      VisibleTurn(a + b);
      VisibleAppend(a[1..], b);
      assert (a + b)[1..] == a[1..] + b;
      AssociateEntries(a[0], Visible(a[1..]), Visible(b));
    }
  }

  /** The first visible entry, if there is one. */
  lemma {:induction false} SomeVisible(es: seq<Dirent>) returns (i: nat)
    requires Visible(es) != []
    ensures i < |es| && !Hidden(es[i])
  {
    hide Hidden;
    if !Hidden(es[0]) {
      i := 0;
    } else {
      var j := SomeVisible(es[1..]);
      i := j + 1;
    }
  }

  lemma {:induction false} VisibleHas(es: seq<Dirent>, i: nat)
    requires i < |es| && !Hidden(es[i])
    ensures es[i] in Visible(es)
  {
    hide Hidden;
    if i > 0 {
      VisibleHas(es[1..], i - 1);
    }
  }

  /** A complete view shows every visible entry. */
  lemma CompleteShows(es: seq<Dirent>, seen: seq<Record>, i: nat)
    requires i < |es| && !Hidden(es[i]) && Complete(seen, Visible(es))
    ensures !Unshown(seen, es[i])
  {
    hide Hidden, Visible, Shows;
    VisibleHas(es, i);
    var j :| 0 <= j < |Visible(es)| && Visible(es)[j] == es[i];
    assert seen[j] in seen && Shows(seen[j], es[i]);
  }

  lemma NeverSeen(opcode: byte, d: Listing, start: nat, after: nat -> nat, i: nat, from: nat)
    requires opcode < 0x80 && Distinct(d.entries) && ReadsOn(opcode, d, start, after)
    requires i < |d.entries| && !Hidden(d.entries[i]) && Missed(d, ClientRoot(opcode, d, start, after, from), i)
    requires forall k: nat | k < from :: !ClientRoot(opcode, d, start, after, k).walk.finished
    ensures !RootListed(opcode, d, start, after)
  {
    hide ClientRoot, Distinct, ReadsOn, Hidden, Visible, Complete, Unshown;
    forall k: nat | ClientRoot(opcode, d, start, after, k).walk.finished
      ensures !Complete(ClientRoot(opcode, d, start, after, k).walk.seen, Visible(d.entries))
    {
      StaysMissed(opcode, d, start, after, i, from, k);
      if Complete(ClientRoot(opcode, d, start, after, k).walk.seen, Visible(d.entries)) {
        CompleteShows(d.entries, ClientRoot(opcode, d, start, after, k).walk.seen, i);
      }
    }
  }

  // ----- directories that cannot be read ---------------------------------------------------------------------------

  /** The last visible entry. */
  lemma {:induction false} LastVisible(es: seq<Dirent>) returns (i: nat)
    requires Visible(es) != []
    ensures i < |es| && !Hidden(es[i]) && forall j | i < j < |es| :: Hidden(es[j])
    decreases |es|
  {
    hide Hidden, Visible;
    var n := |es| - 1;
    VisibleTurn(es);
    if !Hidden(es[n]) {
      i := n;
    } else {
      assert es == es[..n] + [es[n]];
      VisibleAppend(es[..n], [es[n]]);
      VisibleTurn([es[n]]);
      VisibleTurn([]);
      assert [es[n]][1..] == [];
      i := LastVisible(es[..n]);
    }
  }

  /** Whatever the client has seen shows sane entries of the directory. */
  lemma {:induction false} RootSeen(opcode: byte, d: Listing, start: nat, after: nat -> nat, k: nat)
    requires opcode < 0x80 && ReadsOn(opcode, d, start, after)
    ensures Among(d.entries, |d.entries|, ClientRoot(opcode, d, start, after, k).walk.seen)
  {
    hide ClientRoot, Fill, Taken, Fair, Among, Hidden, ReadsOn;
    if k == 0 {
      RootStart(opcode, d, start, after);
      NoneAmong(d.entries, |d.entries|);
    } else {
      RootSeen(opcode, d, start, after, k - 1);
      var r, all := ClientRoot(opcode, d, start, after, k - 1), |d.entries|;
      if r.walk.finished {
        RootStays(opcode, d, start, after, k - 1);
      } else {
        RootStep(opcode, d, start, after, k - 1);
        var rest := From(d, r.pos).entries;
        var page := Fill(rest, d.end, 0, r.walk.cursor, ROOM, false);
        var n := Taken(rest, 0, r.walk.cursor, ROOM, false);
        FairAmong(rest, d.end, page, n);
        if page.Page? {
          AmongWhole(d, r.pos, n, page.records);
          AmongJoin(d.entries, all, r.walk.seen, all, page.records, all);
        }
      }
    }
  }

  lemma RootStart(opcode: byte, d: Listing, start: nat, after: nat -> nat)
    requires opcode < 0x80
    ensures ClientRoot(opcode, d, start, after, 0) == Reading(Walk([], false, 0), start)
  {
  }

  lemma AmongWhole(d: Listing, pos: nat, n: nat, rs: seq<Record>)
    requires n <= |From(d, pos).entries| && Among(From(d, pos).entries, n, rs)
    ensures Among(d.entries, |d.entries|, rs)
  {
    hide Hidden, Sane, Shows;
    var es, rest := d.entries, From(d, pos).entries;
    forall q | q in rs
      ensures exists j: nat :: j < |es| && Shows(q, es[j]) && Sane(es[j]) && !Hidden(es[j])
    {
      var j: nat :| j < n && Shows(q, rest[j]) && Sane(rest[j]) && !Hidden(rest[j]);
      assert rest[j] == es[pos + j];
    }
  }

  /** Where the stream ends in an error, the page that reaches the end is lost: the last visible entry is never
      shown. */
  lemma {:induction false} LastUnshown(opcode: byte, d: Listing, start: nat, after: nat -> nat, last: nat, k: nat)
    requires opcode < 0x80 && Distinct(d.entries) && ReadsOn(opcode, d, start, after) && d.end != NoError
    requires last < |d.entries| && forall j | last < j < |d.entries| :: Hidden(d.entries[j])
    ensures Unshown(ClientRoot(opcode, d, start, after, k).walk.seen, d.entries[last])
  {
    hide ClientRoot, Fill, Taken, Fair, Among, Hidden, ReadsOn, Distinct;
    if k == 0 {
      RootStart(opcode, d, start, after);
    } else {
      LastUnshown(opcode, d, start, after, last, k - 1);
      var r := ClientRoot(opcode, d, start, after, k - 1);
      if r.walk.finished {
        RootStays(opcode, d, start, after, k - 1);
      } else {
        RootStep(opcode, d, start, after, k - 1);
        var rest := From(d, r.pos).entries;
        var page := Fill(rest, d.end, 0, r.walk.cursor, ROOM, false);
        var n := Taken(rest, 0, r.walk.cursor, ROOM, false);
        FairAmong(rest, d.end, page, n);
        if page.Page? {
          assert rest[n - 1] == d.entries[r.pos + n - 1];
          PageMisses(d, r.pos, n - 1, page.records, last);
          UnshownJoin(r.walk.seen, page.records, d.entries[last]);
        }
      }
    }
  }

  /** And without a visible entry the client never finishes. */
  lemma {:induction false} NeverFinishes(opcode: byte, d: Listing, start: nat, after: nat -> nat, k: nat)
    requires opcode < 0x80 && ReadsOn(opcode, d, start, after) && d.end != NoError && Visible(d.entries) == []
    ensures !ClientRoot(opcode, d, start, after, k).walk.finished
  {
    hide ClientRoot, Fill, Taken, Fair, Among, Hidden, ReadsOn, Visible;
    if k == 0 {
      RootStart(opcode, d, start, after);
    } else {
      NeverFinishes(opcode, d, start, after, k - 1);
      RootStep(opcode, d, start, after, k - 1);
      var r := ClientRoot(opcode, d, start, after, k - 1);
      var rest := From(d, r.pos).entries;
      var page := Fill(rest, d.end, 0, r.walk.cursor, ROOM, false);
      var n := Taken(rest, 0, r.walk.cursor, ROOM, false);
      FairAmong(rest, d.end, page, n);
      if Stopped(page, d.end) {
        assert rest[n - 1] == d.entries[r.pos + n - 1];
        VisibleHas(d.entries, r.pos + n - 1);
      }
    }
  }

  lemma CompleteSane(es: seq<Dirent>, v: seq<Dirent>, seen: seq<Record>)
    requires Complete(seen, v) && Among(es, |es|, seen)
    ensures AllSane(v)
  {
    hide Hidden;
    forall i | 0 <= i < |v|
      ensures Sane(v[i])
    {
      assert seen[i] in seen && Shows(seen[i], v[i]);
    }
  }

  lemma ListedIsReadable(opcode: byte, d: Listing, start: nat, after: nat -> nat, k: nat)
    requires opcode < 0x80 && Distinct(d.entries) && ReadsOn(opcode, d, start, after)
    requires ClientRoot(opcode, d, start, after, k).walk.finished
    requires Complete(ClientRoot(opcode, d, start, after, k).walk.seen, Visible(d.entries))
    ensures Readable(d)
  {
    hide ClientRoot, Among, Hidden, ReadsOn, Visible, Complete, Unshown, Distinct;
    var seen := ClientRoot(opcode, d, start, after, k).walk.seen;
    RootSeen(opcode, d, start, after, k);
    CompleteSane(d.entries, Visible(d.entries), seen);
    if d.end != NoError {
      if Visible(d.entries) == [] {
        NeverFinishes(opcode, d, start, after, k);
      } else {
        var last := LastVisible(d.entries);
        LastUnshown(opcode, d, start, after, last, k);
        CompleteShows(d.entries, seen, last);
      }
    }
  }

  // ----- the exact condition --------------------------------------------------------------------------------------

  /** The first page over any number of entries. */
  lemma FirstPage(v: seq<Dirent>)
    requires NoneHidden(v) && AllSane(v)
    ensures var n := Fitting(v, ROOM);
            PageAt(v, 0) == ListPages.Page(RecordsOf(v)[..n], if n == |v| then CURSOR_END else n)
  {
    hide Fill, AllSane, NoneHidden, RecordsOf, Fitting;
    assert v[0..] == v;
    if |v| <= 0x1_0000 {
      SmallPage(v, 0);
    } else {
      BeforeWrap(v, 0, 0, ROOM, false);
      RecordsSlice(v, 0, Fitting(v, ROOM));
    }
  }

  /** The root is listed completely if and only if it can be read, no visible entry has been read over before, and all
      of them fit into one page: the second request already starts behind the entry the first page stopped at. */
  lemma RootTraversalExactly(opcode: byte, d: Listing, start: nat, after: nat -> nat)
    requires opcode < 0x80 && Distinct(d.entries) && start <= |d.entries| && ReadsOn(opcode, d, start, after)
    ensures RootListed(opcode, d, start, after)
            <==> && Readable(d) && Visible(d.entries[..start]) == []
                 && Fitting(Visible(d.entries), ROOM) == |Visible(d.entries)|
  {
    hide ClientRoot, ReadsOn, Distinct, Visible, Complete, Fitting;
    var es := d.entries;
    forall k: nat | && ClientRoot(opcode, d, start, after, k).walk.finished
                    && Complete(ClientRoot(opcode, d, start, after, k).walk.seen, Visible(es))
      ensures Readable(d)
    {
      ListedIsReadable(opcode, d, start, after, k);
    }
    if Readable(d) {
      if Visible(es[..start]) != [] {
        var i := SomeVisible(es[..start]);
        RootStart(opcode, d, start, after);
        NeverSeen(opcode, d, start, after, i, 0);
      } else {
        FromStart(opcode, d, start, after);
      }
    }
  }

  lemma FromStart(opcode: byte, d: Listing, start: nat, after: nat -> nat)
    requires opcode < 0x80 && Readable(d) && Distinct(d.entries) && start <= |d.entries|
    requires ReadsOn(opcode, d, start, after) && Visible(d.entries[..start]) == []
    ensures RootListed(opcode, d, start, after) <==> Fitting(Visible(d.entries), ROOM) == |Visible(d.entries)|
  {
    hide ClientRoot, Fill, Taken, Fair, Among, Hidden, Distinct, ReadsOn, Fitting, RecordsOf, Visible, Complete,
         Unshown;
    var es, v, rest := d.entries, Visible(d.entries), d.entries[start..];
    VisibleAppend(es[..start], rest);
    assert es[..start] + rest == es && [] + Visible(rest) == Visible(rest);
    VisibleFacts(es);
    FirstPage(v);
    FillVisible(rest, NoError, 0, 0, ROOM, false);
    RootStart(opcode, d, start, after);
    RootStep(opcode, d, start, after, 0);
    var t, n := ClientRoot(opcode, d, start, after, 1), Taken(rest, 0, 0, ROOM, false);
    var page := Fill(rest, NoError, 0, 0, ROOM, false);
    assert [] + page.records == page.records;
    if Fitting(v, ROOM) == |v| {
      assert page.records == RecordsOf(v);
      CompleteIsShown(d, t.walk.seen);
      assert t.walk.finished && Complete(t.walk.seen, v);
    } else {
      FairAmong(rest, NoError, page, n);
      PageMisses(d, start, n - 1, page.records, start + n - 1);
      NeverSeen(opcode, d, start, after, start + n - 1, 1);
    }
  }

  /** Two files with long names are enough: whatever the library reads ahead, the second one is never shown. */
  lemma TwoLongNames(opcode: byte, d: Listing, after: nat -> nat)
    requires opcode < 0x80 && ReadsOn(opcode, d, 0, after)
    requires d == Listing([Dirent(LongName(0), StatOk(1, 0)), Dirent(LongName(1), StatOk(1, 0))], NoError)
    ensures Readable(d) && !RootListed(opcode, d, 0, after)
  {
    hide ReadsOn, RootListed, LongName;
    LongNamesDiffer(0, 1);
    VisibleAll(d.entries);
    RootTraversalExactly(opcode, d, 0, after);
  }
}
