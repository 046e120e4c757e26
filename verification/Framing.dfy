/** The byte-stream framing of squid channels: one length byte, then that many payload bytes. */
module Framing {
  import opened Bytes

  type Payload = p: seq<byte> | 1 <= |p| <= PACKET_MAX witness [0]

  function Frame(p: Payload): (f: seq<byte>)
    ensures |f| == |p| + 1
  {
    [|p|] + p
  }

  function Frames(ps: seq<Payload>): seq<byte>
  {
    if ps == [] then [] else Frames(ps[..|ps| - 1]) + Frame(ps[|ps| - 1])
  }

  /** What a byte stream means: its complete packets in order, zero length bytes skipped, and the unfinished rest. */
  datatype Deframed = Deframed(packets: seq<Payload>, rest: seq<byte>)

  function Deframe(stream: seq<byte>): Deframed
  {
    if stream == [] then Deframed([], [])
    else if stream[0] == 0 then Deframe(stream[1..])
    else if |stream| <= stream[0] then Deframed([], stream)
    else
      var d := Deframe(stream[1 + stream[0]..]);
      Deframed([stream[1..1 + stream[0]]] + d.packets, d.rest)
  }

  /** De-framing is incremental: only the unfinished rest matters for the bytes that follow. */
  lemma {:induction false} DeframeAppend(a: seq<byte>, b: seq<byte>)
    ensures Deframe(a + b) == Joined(Deframe(a).packets, Deframe(Deframe(a).rest + b))
    decreases |a|
  {
    if a == [] {
      assert a + b == b;
      JoinedNone(Deframe(b));
    } else if a[0] == 0 {
      DeframeZero(a, b);
      DeframeAppend(a[1..], b);
    } else if |a| <= a[0] {
      assert Deframe(a) == Deframed([], a);
      JoinedNone(Deframe(a + b));
    } else {
      DeframeWhole(a, b);
      DeframeWhole(a, []);
      var n: nat := a[0] as nat + 1;
      DeframeAppend(a[n..], b);
      hide Deframe;
      assert a + [] == a && a[n..] + [] == a[n..];
      JoinedCons(a[1..n], Deframe(a[n..]).packets, Deframe(Deframe(a[n..]).rest + b));
    }
  }

  /** More packets in front. */
  function Joined(packets: seq<Payload>, d: Deframed): Deframed { Deframed(packets + d.packets, d.rest) }

  lemma JoinedNone(d: Deframed)
    ensures Joined([], d) == d
  {
    assert [] + d.packets == d.packets;
  }

  lemma JoinedCons(p: Payload, packets: seq<Payload>, d: Deframed)
    ensures Joined([p], Joined(packets, d)) == Joined([p] + packets, d)
  {
    assert [p] + (packets + d.packets) == ([p] + packets) + d.packets;
  }

  lemma DeframeZero(a: seq<byte>, b: seq<byte>)
    requires a != [] && a[0] == 0
    ensures Deframe(a + b) == Deframe(a[1..] + b) && Deframe(a) == Deframe(a[1..])
  {
    assert (a + b)[1..] == a[1..] + b;
  }

  lemma DeframeWhole(a: seq<byte>, b: seq<byte>)
    requires a != [] && 0 < a[0] < |a|
    ensures var n: nat := a[0] as nat + 1;
            Deframe(a + b) == Joined([a[1..n]], Deframe(a[n..] + b))
  {
    var n: nat := a[0] as nat + 1;
    var s := a + b;
    assert s[0] == a[0] && s[n..] == a[n..] + b && s[1..n] == a[1..n];
  }

  /** A stream of whole frames de-frames to exactly their payloads, with nothing left over. */
  lemma {:induction false} DeframeFrames(ps: seq<Payload>)
    ensures Deframe(Frames(ps)) == Deframed(ps, [])
  {
    if ps != [] {
      var init, last := ps[..|ps| - 1], ps[|ps| - 1];
      DeframeFrames(init);
      DeframeAppend(Frames(init), Frame(last));
      DeframeOne(last);
      LastFrame(ps, init, last);
    }
  }

  lemma LastFrame(ps: seq<Payload>, init: seq<Payload>, last: Payload)
    requires ps != [] && init == ps[..|ps| - 1] && last == ps[|ps| - 1]
    requires Deframe(Frames(init) + Frame(last)) == Joined(init, Deframe([] + Frame(last)))
    requires Deframe(Frame(last)) == Deframed([last], [])
    ensures Deframe(Frames(ps)) == Deframed(ps, [])
  {
    assert Frames(ps) == Frames(init) + Frame(last);
    hide *;
    assert [] + Frame(last) == Frame(last);
    assert Joined(init, Deframed([last], [])) == Deframed(ps, []) by {
      JoinedLast(ps, init, last);
    }
  }

  lemma JoinedLast(ps: seq<Payload>, init: seq<Payload>, last: Payload)
    requires ps != [] && init == ps[..|ps| - 1] && last == ps[|ps| - 1]
    ensures Joined(init, Deframed([last], [])) == Deframed(ps, [])
  {
    assert ps == init + [last];
  }

  lemma DeframeOne(p: Payload)
    ensures Deframe(Frame(p)) == Deframed([p], [])
  {
    assert Frame(p)[1..1 + |p|] == p;
    assert Frame(p)[1 + |p|..] == [];
  }

  /** The rest of a stream is an unfinished frame: de-framing it alone completes nothing. */
  lemma {:induction false} RestIsPartial(stream: seq<byte>)
    ensures var r := Deframe(stream).rest; r == [] || (r[0] != 0 && |r| <= r[0])
  {
    if stream == [] {
    } else if stream[0] == 0 {
      RestIsPartial(stream[1..]);
    } else if |stream| > stream[0] {
      RestIsPartial(stream[1 + stream[0]..]);
    }
  }
}
