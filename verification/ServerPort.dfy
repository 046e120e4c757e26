/** One port of the dispatch loop, as a value, and what every sequence of passes over it keeps. */
module ServerPort {
  import opened Bytes
  import opened Framing

  /** A libsquid receive fails, or hands over at most `n` of the bytes that have arrived. */
  datatype Recv = RecvError | Got(n: nat)

  /** What a plugin does with a request: suppress the reply, or claim a reply in the buffer it was given
      (any size) or in memory of its own. */
  datatype Reply = Suppressed | InPlace(data: seq<byte>) | Foreign(size: nat)

  /** Everything the environment decides during one pass over a port. */
  datatype Choice = Choice(flush: bool, header: Recv, body: Recv, reply: Reply, send: bool)

  datatype Handled = Handled(request: Payload, reply: Option<Payload>)

  /** `rx` holds the bytes not read yet and `tx` the bytes accepted for the client and not yet delivered.
      The last three fields are history: all bytes read, all bytes accepted, all requests answered. */
  datatype Port = Port(
    expected: nat, request: seq<byte>, pending: seq<byte>,
    rx: seq<byte>, tx: seq<byte>,
    consumed: seq<byte>, accepted: seq<byte>, handled: seq<Handled>)

  const Fresh := Port(0, [], [], [], [], [], [], [])

  predicate WellFormed(p: Port)
  {
    && p.expected <= PACKET_MAX
    && |p.request| <= p.expected
    && |p.pending| <= PACKET_MAX + 1
  }

  /** The bytes of the request frame being collected. */
  function Partial(p: Port): (r: seq<byte>)
    requires WellFormed(p)
    ensures |r| == if p.expected == 0 then 0 else 1 + |p.request|
  {
    if p.expected == 0 then [] else [p.expected] + p.request
  }

  function Granted(r: Recv, wanted: nat, available: nat): (n: nat)
    ensures n <= wanted && n <= available
  {
    if r.RecvError? then 0 else Min(r.n, Min(wanted, available))
  }

  function Take(p: Port, n: nat): (q: Port)
    requires n <= |p.rx|
  {
    p.(rx := p.rx[n..], consumed := p.consumed + p.rx[..n])
  }

  function Send(p: Port, bytes: seq<byte>): Port
  {
    p.(tx := p.tx + bytes, accepted := p.accepted + bytes)
  }

  /** The result of receive_plugin_packet: positive when a whole packet is buffered. */
  datatype Received = Received(port: Port, status: int)

  function ReceiveBody(p: Port, body: Recv): (r: Received)
    requires WellFormed(p) && 0 < p.expected
    ensures WellFormed(r.port) && r.port.expected == p.expected
    ensures r.status > 0 <==> |r.port.request| == p.expected
  {
    var wanted := p.expected - |p.request|;
    if wanted == 0 then Received(p, 1)
    else if body.RecvError? then Received(p, -1)
    else
      var n := Granted(body, wanted, |p.rx|);
      Received(Take(p, n).(request := p.request + p.rx[..n]), if n == wanted then 1 else 0)
  }

  function Receive(p: Port, header: Recv, body: Recv): (r: Received)
    requires WellFormed(p)
    ensures WellFormed(r.port)
    ensures r.status > 0 ==> r.port.expected > 0 && |r.port.request| == r.port.expected
  {
    if p.expected != 0 then ReceiveBody(p, body)
    else if header.RecvError? then Received(p, -1)
    else if Granted(header, 1, |p.rx|) == 0 then Received(p, 0)
    else if p.rx[0] == 0 then Received(Take(p, 1), -1)
    else ReceiveBody(Take(p, 1).(expected := p.rx[0], request := []), body)
  }

  /** The reply the server keeps: one to 255 bytes, written where the plugin was told to. */
  function ValidReply(reply: Reply): (r: Option<Payload>)
    ensures r.Some? <==> reply.InPlace? && 1 <= |reply.data| <= PACKET_MAX
    ensures r.Some? ==> r.value == reply.data
  {
    if reply.InPlace? && 1 <= |reply.data| <= PACKET_MAX then Some(reply.data) else None
  }

  function Answer(p: Port, reply: Reply, send: bool): (q: Port)
    requires WellFormed(p) && p.expected > 0 && |p.request| == p.expected
    ensures WellFormed(q)
  {
    var kept := ValidReply(reply);
    var done := p.(expected := 0, request := [], handled := p.handled + [Handled(p.request, kept)]);
    if kept.None? then done
    else if send then Send(done, Frame(kept.value))
    else done.(pending := Frame(kept.value))
  }

  /** Nothing is pending, or libsquid takes the pending reply now. */
  function Flush(p: Port): (q: Port)
    requires WellFormed(p)
    ensures WellFormed(q) && q.pending == []
  {
    if p.pending == [] then p else Send(p, p.pending).(pending := [])
  }

  predicate Blocked(p: Port, c: Choice)
  {
    p.pending != [] && !c.flush
  }

  /** One iteration of the port loop of dispatch_received_packets. */
  function Pass(p: Port, c: Choice): (q: Port)
    requires WellFormed(p)
    ensures WellFormed(q)
  {
    if Blocked(p, c) then p
    else
      var r := Receive(Flush(p), c.header, c.body);
      if r.status <= 0 then r.port else Answer(r.port, c.reply, c.send)
  }

  function Requests(h: seq<Handled>): (r: seq<Payload>)
    ensures |r| == |h| && forall i | 0 <= i < |h| :: r[i] == h[i].request
  {
    if h == [] then [] else Requests(h[..|h| - 1]) + [h[|h| - 1].request]
  }

  function Replies(h: seq<Handled>): seq<Payload>
  {
    if h == [] then []
    else
      var last := h[|h| - 1];
      Replies(h[..|h| - 1]) + (if last.reply.Some? then [last.reply.value] else [])
  }

  /** Nothing is lost, duplicated or reordered in either direction. */
  ghost predicate Conserved(p: Port)
  {
    && WellFormed(p)
    && Deframe(p.consumed) == Deframed(Requests(p.handled), Partial(p))
    && |p.request| < p.expected + (if p.expected == 0 then 1 else 0)
    && p.accepted + p.pending == Frames(Replies(p.handled))
  }

  lemma HandledStep(h: seq<Handled>, x: Handled)
    ensures Requests(h + [x]) == Requests(h) + [x.request]
    ensures x.reply.None? ==> Frames(Replies(h + [x])) == Frames(Replies(h))
    ensures x.reply.Some? ==> Frames(Replies(h + [x])) == Frames(Replies(h)) + Frame(x.reply.value)
  {
    assert (h + [x])[..|h|] == h;
    if x.reply.None? {
      assert Replies(h + [x]) == Replies(h) + [];
      assert Replies(h) + [] == Replies(h);
    } else {
      var r := Replies(h) + [x.reply.value];
      assert Replies(h + [x]) == r;
      assert r[..|r| - 1] == Replies(h);
    }
  }

  /** Reading more bytes of the stream changes its meaning only through the unfinished frame. */
  lemma ConsumeStep(p: Port, n: nat, q: Port)
    requires Conserved(p) && n <= |p.rx| && q.consumed == p.consumed + p.rx[..n]
    ensures var d := Deframe(Partial(p) + p.rx[..n]);
            Deframe(q.consumed) == Deframed(Requests(p.handled) + d.packets, d.rest)
  {
    DeframeAppend(p.consumed, p.rx[..n]);
  }

  lemma FlushConserves(p: Port)
    requires Conserved(p)
    ensures Conserved(Flush(p))
  {
    assert p.accepted + [] == p.accepted;
  }

  lemma ConservedForm(p: Port)
    requires Conserved(p)
    ensures WellFormed(p)
  {
  }

  /** The length byte: zero is passed over, any other begins a request. */
  lemma HeaderConserves(p: Port)
    requires Conserved(p) && p.expected == 0 && p.rx != []
    ensures var q := Take(p, 1);
            if p.rx[0] == 0 then Conserved(q) else Conserved(q.(expected := p.rx[0], request := []))
  {
    hide Deframe, Requests, Frames, Replies;
    ConsumeStep(p, 1, Take(p, 1));
    FirstByte(p.rx);
    NoPackets(Requests(p.handled));
  }

  /** A receive either keeps the port conserved or leaves exactly one whole frame of the stream in the buffer. */
  lemma ReceiveConserves(p: Port, header: Recv, body: Recv)
    requires Conserved(p)
    ensures var r := Receive(p, header, body);
            && r.port.handled == p.handled && r.port.accepted == p.accepted
            && r.port.pending == p.pending && r.port.tx == p.tx
            && (r.status <= 0 ==> Conserved(r.port))
            && (r.status > 0 ==>
                  Deframe(r.port.consumed) == Deframed(Requests(p.handled) + [r.port.request], []))
  {
    hide Deframe, Requests, Frames, Replies, Conserved;
    ConservedForm(p);
    if p.expected != 0 {
      BodyConserves(p, body);
    } else if header.Got? && Granted(header, 1, |p.rx|) == 1 {
      HeaderConserves(p);
      if p.rx[0] != 0 {
        BodyConserves(Take(p, 1).(expected := p.rx[0], request := []), body);
      }
    }
  }

  lemma BodyConserves(p: Port, body: Recv)
    requires Conserved(p) && 0 < p.expected
    ensures var r := ReceiveBody(p, body);
            && (r.status <= 0 ==> Conserved(r.port))
            && (r.status > 0 ==>
                  Deframe(r.port.consumed) == Deframed(Requests(p.handled) + [r.port.request], []))
  {
    if body.Got? {
      var r := ReceiveBody(p, body);
      var n := Granted(body, p.expected - |p.request|, |p.rx|);
      ConsumeStep(p, n, r.port);
      Associate([p.expected], p.request, p.rx[..n]);
      if r.status > 0 {
        DeframeOne(r.port.request);
      } else {
        Unfinished([p.expected] + r.port.request);
        NoPackets(Requests(p.handled));
      }
      hide Deframe, Requests, Frames, Replies;
    }
  }

  lemma Unfinished(f: seq<byte>)
    requires f != [] && 0 < f[0] && |f| <= f[0]
    ensures Deframe(f) == Deframed([], f)
  {
  }

  /** One byte alone: a zero is skipped, any other begins a frame. */
  lemma FirstByte(rx: seq<byte>)
    requires rx != []
    ensures [] + rx[..1] == [rx[0]] && Deframe([rx[0]]) == Deframed([], if rx[0] == 0 then [] else [rx[0]])
  {
    assert [rx[0]][1..] == [];
  }

  lemma NoPackets(ps: seq<Payload>)
    ensures ps + [] == ps
  {
  }

  lemma AnswerConserves(p: Port, reply: Reply, send: bool)
    requires WellFormed(p) && 0 < p.expected && |p.request| == p.expected && p.pending == []
    requires Deframe(p.consumed) == Deframed(Requests(p.handled) + [p.request], [])
    requires p.accepted + p.pending == Frames(Replies(p.handled))
    ensures Conserved(Answer(p, reply, send))
  {
    var x := Handled(p.request, ValidReply(reply));
    HandledStep(p.handled, x);
    assert p.accepted + [] == p.accepted;
  }

  /** Every pass keeps conservation, for every choice of the environment and every plugin. */
  lemma PassConserves(p: Port, c: Choice)
    requires Conserved(p)
    ensures Conserved(Pass(p, c))
  {
    if !Blocked(p, c) {
      FlushConserves(p);
      ReceiveConserves(Flush(p), c.header, c.body);
      var r := Receive(Flush(p), c.header, c.body);
      if r.status > 0 {
        AnswerConserves(r.port, c.reply, c.send);
      }
    }
  }

  /** The world around a port: a pass of the server, bytes arriving from the client, bytes delivered to it. */
  datatype Event = Dispatch(choice: Choice) | Arrive(bytes: seq<byte>) | Deliver(n: nat)

  function Step(p: Port, e: Event): (q: Port)
    requires WellFormed(p)
    ensures WellFormed(q)
  {
    match e
    case Dispatch(c) => Pass(p, c)
    case Arrive(bytes) => p.(rx := p.rx + bytes)
    case Deliver(n) => p.(tx := p.tx[Min(n, |p.tx|)..])
  }

  function Run(es: seq<Event>): (p: Port)
    ensures WellFormed(p)
  {
    if es == [] then Fresh else Step(Run(es[..|es| - 1]), es[|es| - 1])
  }

  function Arrivals(es: seq<Event>): seq<byte>
  {
    if es == [] then []
    else
      var last := es[|es| - 1];
      Arrivals(es[..|es| - 1]) + (if last.Arrive? then last.bytes else [])
  }

  /** In every reachable state the requests handled are the packets of the bytes read, whatever the fragmentation;
      the bytes read and the bytes waiting are the bytes that arrived; and the bytes accepted plus the pending
      reply are the frames of the valid replies. */
  lemma {:induction false} RunConserves(es: seq<Event>)
    ensures Conserved(Run(es))
    ensures Run(es).consumed + Run(es).rx == Arrivals(es)
  {
    if es != [] {
      var before, e := es[..|es| - 1], es[|es| - 1];
      RunConserves(before);
      var p := Run(before);
      match e
      case Dispatch(c) =>
        PassConserves(p, c);
        PassReads(p, c);
      case Arrive(bytes) =>
        assert p.consumed + (p.rx + bytes) == (p.consumed + p.rx) + bytes;
      case Deliver(n) =>
    }
  }

  lemma PassReads(p: Port, c: Choice)
    requires WellFormed(p)
    ensures Pass(p, c).consumed + Pass(p, c).rx == p.consumed + p.rx
    ensures Blocked(p, c) ==> Pass(p, c) == p
  {
    if !Blocked(p, c) {
      ReceiveReads(Flush(p), c.header, c.body);
    }
  }

  lemma ReceiveReads(p: Port, header: Recv, body: Recv)
    requires WellFormed(p)
    ensures var q := Receive(p, header, body).port; q.consumed + q.rx == p.consumed + p.rx
  {
    if p.expected != 0 {
      BodyReads(p, body);
    } else if Granted(header, 1, |p.rx|) == 1 {
      TakeReads(p, 1);
      if p.rx[0] != 0 {
        BodyReads(Take(p, 1).(expected := p.rx[0], request := []), body);
      }
    }
  }

  lemma BodyReads(p: Port, body: Recv)
    requires WellFormed(p) && 0 < p.expected
    ensures var q := ReceiveBody(p, body).port; q.consumed + q.rx == p.consumed + p.rx
  {
    TakeReads(p, Granted(body, p.expected - |p.request|, |p.rx|));
  }

  lemma TakeReads(p: Port, n: nat)
    requires n <= |p.rx|
    ensures Take(p, n).consumed + Take(p, n).rx == p.consumed + p.rx
  {
    assert p.rx == p.rx[..n] + p.rx[n..];
  }

  /** Two runs that read the same bytes handle the same requests: fragmentation, backpressure, receive errors and
      the replies themselves do not change how the stream is split. */
  lemma FragmentationIrrelevant(es: seq<Event>, fs: seq<Event>)
    requires Run(es).consumed == Run(fs).consumed
    ensures Requests(Run(es).handled) == Requests(Run(fs).handled)
    ensures Partial(Run(es)) == Partial(Run(fs))
  {
    RunConserves(es);
    RunConserves(fs);
  }

  /** A stream of whole frames that has been read completely has been handled completely, packet by packet. */
  lemma FramesHandled(es: seq<Event>, ps: seq<Payload>)
    requires Run(es).consumed == Frames(ps)
    ensures Requests(Run(es).handled) == ps && Partial(Run(es)) == []
  {
    RunConserves(es);
    DeframeFrames(ps);
  }

  // ----- progress -------------------------------------------------------------------------------------------------

  /** The link takes a pending reply and hands over at least one byte of those that have arrived. */
  predicate Willing(c: Choice) { c.flush && c.header.Got? && c.header.n > 0 && c.body.Got? && c.body.n > 0 }

  /** A pass with a willing link reads at least one of the bytes that wait, also behind a zero length byte. */
  lemma PassProgress(p: Port, c: Choice)
    requires Conserved(p) && Willing(c)
    ensures if p.rx == [] then Pass(p, c).rx == [] else |Pass(p, c).rx| < |p.rx|
  {
    hide Deframe, Requests, Frames, Replies;
  }

  function Dispatches(cs: seq<Choice>): seq<Event>
  {
    if cs == [] then [] else Dispatches(cs[..|cs| - 1]) + [Dispatch(cs[|cs| - 1])]
  }

  lemma RunSnoc(es: seq<Event>, e: Event)
    ensures Run(es + [e]) == Step(Run(es), e)
    ensures Arrivals(es + [e]) == Arrivals(es) + (if e.Arrive? then e.bytes else [])
  {
    assert (es + [e])[..|es|] == es;
  }

  lemma {:induction false} PassesRead(es: seq<Event>, cs: seq<Choice>)
    requires forall k | 0 <= k < |cs| :: Willing(cs[k])
    ensures var all := es + Dispatches(cs);
            && Arrivals(all) == Arrivals(es)
            && (Run(all).rx == [] || |Run(all).rx| + |cs| <= |Run(es).rx|)
  {
    hide Run, Arrivals, Step, Willing;
    if cs == [] {
      assert es + [] == es;
    } else {
      var n := |cs| - 1;
      PassesRead(es, cs[..n]);
      var before := es + Dispatches(cs[..n]);
      assert es + Dispatches(cs) == before + [Dispatch(cs[n])];
      RunSnoc(before, Dispatch(cs[n]));
      assert Arrivals(before) + [] == Arrivals(before);
      RunConserves(before);
      StepPasses(Run(before), cs[n]);
    }
  }

  lemma StepPasses(p: Port, c: Choice)
    requires Conserved(p) && Willing(c)
    ensures var q := Step(p, Dispatch(c)); if p.rx == [] then q.rx == [] else |q.rx| < |p.rx|
  {
    hide Pass, Conserved, Willing;
    ConservedForm(p);
    PassProgress(p, c);
  }

  /** Nothing that arrives is left unhandled: after any run, as many passes with a willing link as bytes wait read all
      of them, and then exactly the packets of all bytes that arrived have been handled, whatever the plugins answer. */
  lemma AllHandled(es: seq<Event>, cs: seq<Choice>)
    requires |cs| >= |Run(es).rx| && forall k | 0 <= k < |cs| :: Willing(cs[k])
    ensures var p := Run(es + Dispatches(cs));
            p.rx == [] && Deframe(Arrivals(es)) == Deframed(Requests(p.handled), Partial(p))
  {
    hide Run, Arrivals, Dispatches, Deframe, Willing;
    PassesRead(es, cs);
    var all := es + Dispatches(cs);
    RunConserves(all);
    assert Run(all).consumed + [] == Run(all).consumed;
  }
}
