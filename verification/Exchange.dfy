/** The synchronous client, the dispatch loop and the two byte queues between them, as one transition system
    within one link epoch. */
module Exchange {
  import opened Bytes
  import opened Framing
  import opened ServerPort

  /** Where squid_client_exchange stands. `Body` has read the reply length and collects or drains the payload. */
  datatype Phase = Idle | Header | Body(want: byte, got: seq<byte>)

  datatype Outcome = Success(payload: seq<byte>) | Overflow | ProtocolError

  datatype Completed = Completed(consumed: seq<byte>, outcome: Outcome)

  /** The bytes of the reply frame that the client has taken so far. */
  function Taken(ph: Phase): seq<byte>
  {
    if ph.Body? then [ph.want] + ph.got else []
  }

  /** How many bytes the client asks for next. */
  function Wanted(ph: Phase): nat
  {
    match ph
    case Idle => 0
    case Header => 1
    case Body(want, got) => if |got| <= want then want - |got| else 0
  }

  function ReplyOutcome(capacity: nat, want: byte, got: seq<byte>): Outcome
  {
    if want > capacity then Overflow else Success(got)
  }

  datatype Progress = More(phase: Phase) | Done(result: Completed)

  /** The client receives `chunk`. */
  function Feed(capacity: nat, ph: Phase, chunk: seq<byte>): (r: Progress)
    requires !ph.Idle? && |chunk| <= Wanted(ph)
    requires ph.Body? ==> |ph.got| < ph.want
    ensures r.More? ==> !r.phase.Idle? && (r.phase.Body? ==> |r.phase.got| < r.phase.want)
    ensures r.More? ==> Taken(r.phase) == Taken(ph) + chunk
    ensures r.Done? ==> r.result.consumed == Taken(ph) + chunk
  {
    if chunk == [] then More(ph)
    else if ph.Header? then
      if chunk[0] == 0 then Done(Completed(chunk, ProtocolError)) else More(Body(chunk[0], []))
    else
      var got := ph.got + chunk;
      if |got| < ph.want then More(Body(ph.want, got))
      else Done(Completed([ph.want] + got, ReplyOutcome(capacity, ph.want, got)))
  }

  /** What the reply stream means to one exchange, whatever pieces it arrives in. */
  function ReplyOf(capacity: nat, stream: seq<byte>): Option<Completed>
  {
    if stream == [] then None
    else if stream[0] == 0 then Some(Completed([0], ProtocolError))
    else if |stream| <= stream[0] then None
    else Some(Completed(stream[..1 + stream[0]], ReplyOutcome(capacity, stream[0], stream[1..1 + stream[0]])))
  }

  /** An exchange that came to an end with a reply: the number of the request it sent, and what it consumed. */
  datatype Ended = Ended(number: nat, result: Completed)

  /** `sent` lists the requests put on the wire, `done` the exchanges that came to an end with a reply; `dropped`
      counts the exchanges that were abandoned. */
  datatype System = System(
    capacity: nat, phase: Phase, port: Port, sent: seq<Payload>, done: seq<Ended>, dropped: nat)

  datatype Label =
    | Start(request: Payload)       // squid_send accepted the request frame
    | Refused(request: Payload)     // squid_send refused it: the call returns an I/O error
    | Receive(n: nat)               // the client takes up to n arrived bytes
    | Server(choice: Choice)        // one server pass over the port
    | Abandon                       // cancellation, link or I/O error while waiting

  function Boot(capacity: nat): System { System(capacity, Idle, Fresh, [], [], 0) }

  predicate Sound(s: System)
  {
    && WellFormed(s.port)
    && 1 <= s.capacity <= PACKET_MAX
    && (s.phase.Body? ==> |s.phase.got| < s.phase.want)
    && (!s.phase.Idle? ==> s.sent != [])
  }

  predicate Enabled(s: System, l: Label)
  {
    match l
    case Start(request) => s.phase.Idle? && |request| <= s.capacity
    case Refused(request) => s.phase.Idle? && |request| <= s.capacity
    case Receive(_) => !s.phase.Idle?
    case Server(_) => true
    case Abandon => !s.phase.Idle?
  }

  function Next(s: System, l: Label): (t: System)
    requires Sound(s) && Enabled(s, l)
    ensures Sound(t) && t.capacity == s.capacity
  {
    match l
    case Start(request) =>
      s.(phase := Header, sent := s.sent + [request], port := s.port.(rx := s.port.rx + Frame(request)))
    case Refused(_) => s
    case Receive(n) =>
      var k := Min(n, Min(Wanted(s.phase), |s.port.tx|));
      var rest := s.(port := s.port.(tx := s.port.tx[k..]));
      (match Feed(s.capacity, s.phase, s.port.tx[..k])
       case More(ph) => rest.(phase := ph)
       case Done(result) => rest.(phase := Idle, done := s.done + [Ended(|s.sent| - 1, result)]))
    case Server(c) => s.(port := Pass(s.port, c))
    case Abandon => s.(phase := Idle, dropped := s.dropped + 1)
  }

  /** One label; where it is not enabled it does nothing. */
  function Advance(s: System, l: Label): (t: System)
    requires Sound(s)
    ensures Sound(t) && t.capacity == s.capacity
  {
    if Enabled(s, l) then Next(s, l) else s
  }

  /** The state `ls` leads to from `s`. */
  function Resume(s: System, ls: seq<Label>): (t: System)
    requires Sound(s)
    ensures Sound(t) && t.capacity == s.capacity
    decreases |ls|
  {
    if ls == [] then s else Resume(Advance(s, ls[0]), ls[1..])
  }

  /** The exchange that consumed exactly the frame of the reply. */
  ghost predicate Matched(capacity: nat, c: Completed, h: Handled)
  {
    && h.reply.Some?
    && c.consumed == Frame(h.reply.value)
    && c.outcome == (if |h.reply.value| > capacity then Overflow else Success(h.reply.value))
  }

  /** The exchange consumed exactly the frame of the reply to the request it sent. */
  ghost predicate Own(s: System, e: Ended)
  {
    && e.number < |s.sent| && e.number < |s.port.handled|
    && s.port.handled[e.number].request == s.sent[e.number]
    && Matched(s.capacity, e.result, s.port.handled[e.number])
  }

  ghost predicate OwnReplies(s: System) { forall j | 0 <= j < |s.done| :: Own(s, s.done[j]) }

  /** Both ends stand on a frame boundary and nothing is in flight. */
  predicate Quiet(p: Port)
    requires WellFormed(p)
  {
    p.rx == [] && p.tx == [] && p.pending == [] && Partial(p) == []
  }

  /** Some exchange ended with the reply to request `i`. */
  ghost predicate EndedWith(done: seq<Ended>, i: nat) { exists j | 0 <= j < |done| :: done[j].number == i }

  /** Request `i` was declined, belongs to an exchange that ended, or is in progress. */
  ghost predicate Accounted(s: System, i: nat)
    requires i < |s.port.handled|
  {
    s.port.handled[i].reply.None? || EndedWith(s.done, i) || (!s.phase.Idle? && i == |s.sent| - 1)
  }

  ghost predicate History(s: System)
  {
    && |s.port.handled| <= |s.sent|
    && (forall i | 0 <= i < |s.port.handled| :: s.port.handled[i].request == s.sent[i] && Accounted(s, i))
    && OwnReplies(s)
    && (forall j | 0 <= j < |s.done| :: j <= s.done[j].number <= j + s.dropped)
    && (forall i, j | 0 <= i < j < |s.done| :: s.done[i].number < s.done[j].number)
  }

  /** The request of the exchange in progress is still on its way to the plugin. */
  ghost predicate Asking(s: System)
    requires Sound(s)
  {
    && s.phase.Header?
    && |s.sent| == |s.done| + s.dropped + 1 == |s.port.handled| + 1
    && s.port.tx == [] && s.port.pending == []
    && (s.port.expected == 0 || |s.port.request| < s.port.expected)
    && Partial(s.port) + s.port.rx == Frame(s.sent[|s.sent| - 1])
  }

  /** The plugin has answered the exchange in progress; its reply frame lies in order over client, queue and buffer. */
  ghost predicate Replying(s: System)
    requires Sound(s)
  {
    && !s.phase.Idle?
    && |s.sent| == |s.done| + s.dropped + 1 == |s.port.handled|
    && s.port.rx == [] && s.port.expected == 0
    && var reply := s.port.handled[|s.sent| - 1].reply;
       Taken(s.phase) + s.port.tx + s.port.pending == (if reply.Some? then Frame(reply.value) else [])
  }

  /** The plugin has declined to answer the exchange in progress. */
  ghost predicate Declined(s: System)
    requires Sound(s)
  {
    Replying(s) && s.port.handled[|s.sent| - 1].reply.None?
  }

  ghost predicate Resting(s: System)
    requires Sound(s)
  {
    s.phase.Idle? && |s.sent| == |s.done| + s.dropped == |s.port.handled| && Quiet(s.port)
  }

  ghost predicate Inv(s: System)
  {
    Sound(s) && History(s) && (Resting(s) || Asking(s) || Replying(s))
  }

  // ----- what every step keeps -------------------------------------------------------------------------------------

  /** What happens on the wires does not change the history. */
  lemma HistoryStays(s: System, t: System)
    requires History(s) && t.capacity == s.capacity && t.port.handled == s.port.handled && t.done == s.done
    requires t.dropped == s.dropped && s.sent <= t.sent
    requires (t.phase.Idle? == s.phase.Idle? && t.sent == s.sent) || (s.phase.Idle? && !t.phase.Idle?)
    ensures History(t)
  {
    hide Matched;
    forall i | 0 <= i < |t.port.handled|
      ensures t.port.handled[i].request == t.sent[i] && Accounted(t, i)
    {
      assert Accounted(s, i) && s.sent[i] == t.sent[i];
    }
    forall j | 0 <= j < |t.done|
      ensures Own(t, t.done[j])
    {
      assert Own(s, s.done[j]) && s.sent[s.done[j].number] == t.sent[t.done[j].number];
    }
  }

  /** The plugin handles the request in progress. */
  lemma HistoryAnswers(s: System, p: Port, reply: Option<Payload>)
    requires History(s) && !s.phase.Idle? && |s.sent| == |s.port.handled| + 1
    requires p.handled == s.port.handled + [Handled(s.sent[|s.sent| - 1], reply)]
    ensures History(s.(port := p))
  {
    hide Matched;
    var t := s.(port := p);
    forall i | 0 <= i < |t.port.handled|
      ensures t.port.handled[i].request == t.sent[i] && Accounted(t, i)
    {
      if i < |s.port.handled| {
        assert Accounted(s, i);
      }
    }
    forall j | 0 <= j < |t.done|
      ensures Own(t, t.done[j])
    {
      assert Own(s, s.done[j]);
    }
  }

  /** The exchange in progress ends with its reply. */
  lemma HistoryGrows(s: System, result: Completed, rest: seq<byte>)
    requires History(s) && !s.phase.Idle? && |s.sent| == |s.done| + s.dropped + 1 == |s.port.handled|
    requires Matched(s.capacity, result, s.port.handled[|s.sent| - 1])
    ensures History(s.(port := s.port.(tx := rest)).(phase := Idle, done := s.done + [Ended(|s.sent| - 1, result)]))
  {
    hide Matched;
    var n := |s.sent| - 1;
    var t := s.(port := s.port.(tx := rest)).(phase := Idle, done := s.done + [Ended(n, result)]);
    forall i | 0 <= i < |t.port.handled|
      ensures t.port.handled[i].request == t.sent[i] && Accounted(t, i)
    {
      assert Accounted(s, i);
      EndedLater(s.done, Ended(n, result), i);
    }
    forall j | 0 <= j < |t.done|
      ensures Own(t, t.done[j])
    {
      if j < |s.done| {
        assert Own(s, s.done[j]);
      }
    }
  }

  lemma EndedLater(done: seq<Ended>, e: Ended, i: nat)
    ensures EndedWith(done, i) || e.number == i ==> EndedWith(done + [e], i)
  {
    if e.number == i {
      assert (done + [e])[|done|].number == i;
    } else if EndedWith(done, i) {
      var j :| 0 <= j < |done| && done[j].number == i;
      assert (done + [e])[j].number == i;
    }
  }

  /** A declined exchange is given up: nothing of it is left. */
  lemma HistoryDrops(s: System)
    requires History(s) && !s.phase.Idle? && 0 < |s.sent| == |s.port.handled|
    requires s.port.handled[|s.sent| - 1].reply.None?
    ensures History(s.(phase := Idle, dropped := s.dropped + 1))
  {
    hide Matched;
    var t := s.(phase := Idle, dropped := s.dropped + 1);
    forall i | 0 <= i < |t.port.handled|
      ensures t.port.handled[i].request == t.sent[i] && Accounted(t, i)
    {
      assert Accounted(s, i);
    }
    forall j | 0 <= j < |t.done|
      ensures Own(t, t.done[j])
    {
      assert Own(s, s.done[j]);
    }
  }

  lemma StartKeeps(s: System, request: Payload)
    requires Inv(s) && Enabled(s, Start(request))
    ensures Inv(Next(s, Start(request)))
  {
    HistoryStays(s, Next(s, Start(request)));
    hide History;
    assert [] + Frame(request) == Frame(request);
  }

  /** A server pass while the request is on its way moves bytes into the request buffer, or answers. */
  lemma ServerAsking(s: System, c: Choice)
    requires Inv(s) && Asking(s)
    ensures Inv(Next(s, Server(c)))
  {
    var q := Pass(s.port, c);
    AskingPass(s.port, s.sent[|s.sent| - 1], c);
    if |q.handled| > |s.port.handled| {
      Answered(s, q, ValidReply(c.reply));
    } else {
      StillAsking(s, q);
    }
    hide Pass, Inv;
  }

  lemma Answered(s: System, q: Port, kept: Option<Payload>)
    requires Inv(s) && Asking(s) && WellFormed(q)
    requires q.handled == s.port.handled + [Handled(s.sent[|s.sent| - 1], kept)] && q.rx == [] && q.expected == 0
    requires [] + q.tx + q.pending == (if kept.Some? then Frame(kept.value) else [])
    ensures Inv(s.(port := q))
  {
    HistoryAnswers(s, q, kept);
    hide History, Frame;
    assert q.handled[|s.sent| - 1].reply == kept;
    assert Replying(s.(port := q));
  }

  lemma StillAsking(s: System, q: Port)
    requires Inv(s) && Asking(s) && WellFormed(q)
    requires q.handled == s.port.handled && q.tx == [] && q.pending == []
    requires Partial(q) + q.rx == Frame(s.sent[|s.sent| - 1]) && (q.expected == 0 || |q.request| < q.expected)
    ensures Inv(s.(port := q))
  {
    HistoryStays(s, s.(port := q));
    hide History, Frame, Partial;
    assert Asking(s.(port := q));
  }

  lemma AskingPass(p: Port, last: Payload, c: Choice)
    requires WellFormed(p) && Partial(p) + p.rx == Frame(last) && p.tx == [] && p.pending == []
    requires p.expected == 0 || |p.request| < p.expected
    ensures var q, kept := Pass(p, c), ValidReply(c.reply);
            || (q.handled == p.handled && q.tx == [] && q.pending == [] && Partial(q) + q.rx == Frame(last)
                && (q.expected == 0 || |q.request| < q.expected))
            || (q.handled == p.handled + [Handled(last, kept)] && q.rx == [] && q.expected == 0
                && [] + q.tx + q.pending == (if kept.Some? then Frame(kept.value) else []))
  {
    var r := ServerPort.Receive(p, c.header, c.body);
    AskingReceive(p, Frame(last), c.header, c.body);
    hide ServerPort.Receive;
    if r.status > 0 {
      WholeRequest(r.port, last);
      AnswerShape(r.port, c.reply, c.send);
    }
  }

  lemma WholeRequest(p: Port, last: Payload)
    requires WellFormed(p) && p.expected > 0 && Partial(p) + p.rx == Frame(last) && p.rx == []
    ensures p.request == last
  {
    var f := Frame(last);
    assert Partial(p) == f;
    assert p.request == f[1..] == last;
  }

  /** What handling a packet leaves: an empty request buffer, and the reply in the queue or pending. */
  lemma AnswerShape(p: Port, reply: Reply, send: bool)
    requires WellFormed(p) && p.expected > 0 && |p.request| == p.expected && p.tx == [] && p.pending == []
    ensures var q, kept := Answer(p, reply, send), ValidReply(reply);
            && q.handled == p.handled + [Handled(p.request, kept)] && q.rx == p.rx && q.expected == 0 && q.request == []
            && [] + q.tx + q.pending == (if kept.Some? then Frame(kept.value) else [])
  {
    var kept := ValidReply(reply);
    if kept.Some? {
      assert [] + Frame(kept.value) == Frame(kept.value) == [] + [] + Frame(kept.value);
      assert [] + Frame(kept.value) + [] == Frame(kept.value);
    }
  }

  /** Receiving keeps the frame in order and never skips a byte of it. */
  lemma AskingReceive(p: Port, f: seq<byte>, header: Recv, body: Recv)
    requires WellFormed(p) && |f| > 1 && f[0] == |f| - 1
    requires Partial(p) + p.rx == f && |p.request| < p.expected + (if p.expected == 0 then 1 else 0)
    ensures var r := ServerPort.Receive(p, header, body);
            && r.port.tx == p.tx && r.port.pending == p.pending && r.port.handled == p.handled
            && Partial(r.port) + r.port.rx == f
            && (r.status > 0 ==> r.port.rx == [] && r.port.expected == |f| - 1)
            && (r.status <= 0 ==> r.port.expected == 0 || |r.port.request| < r.port.expected)
  {
    if p.expected != 0 {
      AskingBody(p, f, body);
    } else if Granted(header, 1, |p.rx|) == 1 {
      assert p.rx == f;
      var q := Take(p, 1).(expected := p.rx[0], request := []);
      assert Partial(q) + q.rx == f;
      AskingBody(q, f, body);
    }
  }

  lemma AskingBody(p: Port, f: seq<byte>, body: Recv)
    requires WellFormed(p) && |f| > 1 && f[0] == |f| - 1
    requires Partial(p) + p.rx == f && 0 < p.expected && |p.request| < p.expected
    ensures var r := ReceiveBody(p, body);
            && r.port.tx == p.tx && r.port.pending == p.pending && r.port.handled == p.handled
            && Partial(r.port) + r.port.rx == f
            && (r.status > 0 ==> r.port.rx == [] && r.port.expected == |f| - 1)
            && (r.status <= 0 ==> |r.port.request| < r.port.expected)
  {
    assert f[0] == (Partial(p) + p.rx)[0] == p.expected;
    if body.Got? {
      var n := Granted(body, p.expected - |p.request|, |p.rx|);
      MoveBytes([p.expected], p.request, p.rx, n);
    }
  }

  /** Bytes that move from the queue into the request buffer stay in order. */
  lemma MoveBytes(head: seq<byte>, request: seq<byte>, rx: seq<byte>, n: nat)
    requires n <= |rx|
    ensures (head + (request + rx[..n])) + rx[n..] == (head + request) + rx
  {
    assert rx == rx[..n] + rx[n..];
  }

  lemma IdleQueues(s: System)
    requires Sound(s) && (Replying(s) || Resting(s))
    ensures s.port.rx == [] && s.port.expected == 0
    ensures Resting(s) ==> Flush(s.port) == s.port
  {
  }

  /** A flush moves the pending part of the reply behind the part in the queue. */
  lemma FlushKeeps(s: System)
    requires Sound(s) && Replying(s)
    ensures Sound(s.(port := Flush(s.port))) && Flush(s.port).handled == s.port.handled
    ensures Replying(s.(port := Flush(s.port)))
  {
    hide Frame, Taken;
    var p := s.port;
    Associate(Taken(s.phase), p.tx, p.pending);
    NothingMore(Taken(s.phase) + (p.tx + p.pending));
  }

  lemma ServerReplying(s: System, c: Choice)
    requires Inv(s) && (Replying(s) || Resting(s))
    ensures Inv(Next(s, Server(c)))
  {
    hide Pass, History, Flush, Replying, Resting, Asking;
    var p := s.port;
    IdleQueues(s);
    IdlePass(p, c);
    if Pass(p, c) != p {
      FlushKeeps(s);
      HistoryStays(s, s.(port := Pass(p, c)));
    }
  }

  /** A pass over a port with nothing to read only flushes. */
  lemma IdlePass(p: Port, c: Choice)
    requires WellFormed(p) && p.rx == [] && p.expected == 0
    ensures Pass(p, c) == if Blocked(p, c) then p else Flush(p)
  {
  }

  lemma NothingMore(a: seq<byte>)
    ensures a + [] == a
  {
  }

  /** While the request is on its way there is nothing to receive; while the reply is, the client takes its bytes
      in order and completes exactly at its last byte. */
  lemma ReceiveKeeps(s: System, n: nat)
    requires Inv(s) && Enabled(s, Label.Receive(n))
    ensures Inv(Next(s, Label.Receive(n)))
  {
    var k := Min(n, Min(Wanted(s.phase), |s.port.tx|));
    if k > 0 {
      ReceiveReply(s, n, k);
    } else {
      FeedNothing(s.capacity, s.phase, s.port.tx);
      assert Next(s, Label.Receive(n)) == s;
    }
  }

  lemma ReceiveReply(s: System, n: nat, k: nat)
    requires Inv(s) && Enabled(s, Label.Receive(n)) && k == Min(n, Min(Wanted(s.phase), |s.port.tx|)) > 0
    ensures Inv(Next(s, Label.Receive(n)))
  {
    var f := Feed(s.capacity, s.phase, s.port.tx[..k]);
    assert Replying(s);
    if f.Done? {
      ReplyEnds(s, k, f.result);
    } else {
      ReplyGoesOn(s, k, f.phase);
    }
    hide Inv, Feed, Wanted;
  }

  lemma SameMatch(capacity: nat, result: Completed, p: Payload, h: Handled)
    requires Matched(capacity, result, Handled(p, Some(p))) && h.reply == Some(p)
    ensures Matched(capacity, result, h)
  {
  }

  lemma ReplyEnds(s: System, k: nat, result: Completed)
    requires Inv(s) && Replying(s) && 0 < k <= |s.port.tx| && k <= Wanted(s.phase)
    requires Feed(s.capacity, s.phase, s.port.tx[..k]) == Done(result)
    ensures Inv(
              s.(port := s.port.(tx := s.port.tx[k..])).(phase := Idle, done := s.done + [Ended(|s.sent| - 1, result)]))
  {
    hide Feed, Frame, Wanted, Matched, History, Taken;
    var reply := s.port.handled[|s.sent| - 1].reply;
    Recut(Taken(s.phase), s.port.tx, k, s.port.pending);
    FeedFrame(s.capacity, s.phase, s.port.tx[..k], reply.value, s.port.tx[k..] + s.port.pending);
    SameMatch(s.capacity, result, reply.value, s.port.handled[|s.sent| - 1]);
    HistoryGrows(s, result, s.port.tx[k..]);
  }

  lemma ReplyGoesOn(s: System, k: nat, ph: Phase)
    requires Inv(s) && Replying(s) && 0 < k <= |s.port.tx| && k <= Wanted(s.phase)
    requires Feed(s.capacity, s.phase, s.port.tx[..k]) == More(ph)
    ensures Inv(s.(port := s.port.(tx := s.port.tx[k..])).(phase := ph))
  {
    Recut(Taken(s.phase), s.port.tx, k, s.port.pending);
    HistoryStays(s, s.(port := s.port.(tx := s.port.tx[k..])).(phase := ph));
    hide Feed, Frame, Wanted, Matched, History, Taken;
  }

  /** Cutting the queue leaves the order of the bytes as it is. */
  lemma Recut(taken: seq<byte>, tx: seq<byte>, k: nat, pending: seq<byte>)
    requires k <= |tx|
    ensures taken + tx + pending == (taken + tx[..k]) + (tx[k..] + pending)
    ensures taken + tx + pending == (taken + tx[..k]) + tx[k..] + pending
  {
    assert tx == tx[..k] + tx[k..];
  }

  lemma FeedNothing(capacity: nat, ph: Phase, tx: seq<byte>)
    requires !ph.Idle? && (ph.Body? ==> |ph.got| < ph.want)
    ensures tx[..0] == [] && tx[0..] == tx && Feed(capacity, ph, tx[..0]) == More(ph)
  {
  }

  lemma FeedFrame(capacity: nat, ph: Phase, chunk: seq<byte>, p: Payload, rest: seq<byte>)
    requires !ph.Idle? && 0 < |chunk| <= Wanted(ph) && (ph.Body? ==> |ph.got| < ph.want)
    requires Frame(p) == Taken(ph) + chunk + rest
    ensures match Feed(capacity, ph, chunk)
            case More(_) => rest != []
            case Done(result) => rest == [] && Matched(capacity, result, Handled(p, Some(p)))
  {
    var f := Frame(p);
    assert f[0] == |p|;
    if ph.Header? {
      assert f[0] == chunk[0];
    } else {
      assert f[0] == ph.want;
      var got := ph.got + chunk;
      assert f == [ph.want] + got + rest;
      if |got| == ph.want {
        assert got == f[1..] == p;
      }
    }
  }

  lemma AbandonKeeps(s: System)
    requires Inv(s) && Declined(s)
    ensures Inv(Next(s, Abandon)) && Resting(Next(s, Abandon))
  {
    HistoryDrops(s);
    hide History;
    assert Taken(s.phase) == [] && s.port.tx == [] && s.port.pending == [];
  }

  /** Every step keeps the invariant, except giving up an exchange that the plugin has not declined. */
  lemma StepKeeps(s: System, l: Label)
    requires Inv(s) && Enabled(s, l) && (l == Abandon ==> Declined(s))
    ensures Inv(Next(s, l))
  {
    match l
    case Start(request) => StartKeeps(s, request);
    case Refused(_) =>
    case Receive(n) => ReceiveKeeps(s, n);
    case Server(c) => if Asking(s) { ServerAsking(s, c); } else { ServerReplying(s, c); }
    case Abandon => AbandonKeeps(s);
  }

  // ----- runs ------------------------------------------------------------------------------------------------------

  /** No exchange is abandoned in the run, except after the plugin has declined it. */
  ghost predicate Careful(s: System, ls: seq<Label>)
    requires Sound(s)
    decreases |ls|
  {
    ls != [] ==> (ls[0] == Abandon && Enabled(s, Abandon) ==> Declined(s)) && Careful(Advance(s, ls[0]), ls[1..])
  }

  lemma {:induction false} RunKeeps(s: System, ls: seq<Label>)
    requires Inv(s) && Careful(s, ls)
    ensures Inv(Resume(s, ls))
    decreases |ls|
  {
    if ls != [] {
      if Enabled(s, ls[0]) {
        StepKeeps(s, ls[0]);
      }
      RunKeeps(Advance(s, ls[0]), ls[1..]);
    }
  }

  lemma {:induction false} NeverGivesUp(s: System, ls: seq<Label>)
    requires Sound(s) && Abandon !in ls
    ensures Careful(s, ls) && Resume(s, ls).dropped == s.dropped
    decreases |ls|
  {
    if ls != [] {
      NeverGivesUp(Advance(s, ls[0]), ls[1..]);
    }
  }

  lemma BootKeeps(capacity: nat)
    requires 1 <= capacity <= PACKET_MAX
    ensures Inv(Boot(capacity)) && Resting(Boot(capacity))
  {
  }

  /** In every run that abandons no exchange before the plugin has declined it, for every plugin, fragmentation and
      backpressure: every completed exchange consumed exactly the frame of the reply to the request it sent, and ended
      with that reply or, when it exceeds the client's capacity, with OVERFLOW; exchanges end in the order of their
      requests; a request without an ended exchange was declined or is in progress; and between exchanges both ends
      stand on a frame boundary with nothing in flight. Without abandoned exchanges the k-th completed exchange is that
      of the k-th request. */
  lemma ExchangesMatch(capacity: nat, ls: seq<Label>)
    requires 1 <= capacity <= PACKET_MAX && Careful(Boot(capacity), ls)
    ensures var s := Resume(Boot(capacity), ls);
            && |s.port.handled| <= |s.sent| <= |s.port.handled| + 1
            && (forall i | 0 <= i < |s.port.handled| :: s.port.handled[i].request == s.sent[i] && Accounted(s, i))
            && OwnReplies(s)
            && (forall i, j | 0 <= i < j < |s.done| :: s.done[i].number < s.done[j].number)
            && (s.phase.Idle? ==> |s.sent| == |s.port.handled| && Quiet(s.port))
            && (Abandon !in ls ==>
                  && |s.done| <= |s.sent| <= |s.done| + 1 && (s.phase.Idle? ==> |s.sent| == |s.done|)
                  && forall j | 0 <= j < |s.done| :: s.done[j].number == j)
  {
    BootKeeps(capacity);
    RunKeeps(Boot(capacity), ls);
    if Abandon !in ls {
      NeverGivesUp(Boot(capacity), ls);
    }
    hide Own, Accounted, Resume, Careful;
  }

  /** Feeding the stream in any pieces ends in what the stream means, and not before. */
  lemma FeedMeansReply(capacity: nat, ph: Phase, chunk: seq<byte>, stream: seq<byte>)
    requires !ph.Idle? && |chunk| <= Wanted(ph) && (ph.Body? ==> |ph.got| < ph.want)
    requires Taken(ph) + chunk <= stream && (ph.Body? ==> ph.want != 0)
    ensures match Feed(capacity, ph, chunk)
            case More(next) => ReplyOf(capacity, Taken(next)).None? && (next.Body? ==> next.want != 0)
            case Done(result) => ReplyOf(capacity, stream) == Some(result)
  {
    if chunk != [] && ph.Body? {
      var got := ph.got + chunk;
      assert Taken(ph) + chunk == [ph.want] + got;
      assert stream[0] == ([ph.want] + got)[0];
      if |got| == ph.want {
        assert stream[..1 + ph.want as nat] == [ph.want] + got;
        assert stream[1..1 + ph.want as nat] == got;
      }
    } else if chunk != [] {
      assert Taken(ph) + chunk == chunk;
      assert chunk == [chunk[0]] && stream[0] == chunk[0];
    }
  }

  // ----- progress --------------------------------------------------------------------------------------------------

  const Eager := Choice(true, Got(1), Got(PACKET_MAX), InPlace([0]), true)

  /** Two receives that take all they can. */
  const TAKE: seq<Label> := [Label.Receive(1), Label.Receive(PACKET_MAX)]

  /** One server pass and those receives. */
  const FINISH: seq<Label> := [Server(Eager)] + TAKE

  lemma EagerHandled(s: System)
    requires Inv(s) && !s.phase.Idle? && !Declined(s)
    ensures var q := Pass(s.port, Eager);
            |q.handled| == |s.sent| && q.handled[|s.sent| - 1].reply.Some? && q.pending == []
  {
    hide History, Pass, Frame, Taken;
    if Asking(s) {
      EagerAsking(s.port, s.sent[|s.sent| - 1]);
    } else {
      IdlePass(s.port, Eager);
    }
  }

  lemma EagerReplying(s: System)
    requires Inv(s) && !s.phase.Idle? && |s.port.handled| == |s.sent| && s.port.handled[|s.sent| - 1].reply.Some?
    ensures Replying(s) && !Declined(s)
  {
    hide History, Frame, Taken;
  }

  lemma EagerPass(s: System)
    requires Inv(s) && !s.phase.Idle? && !Declined(s)
    ensures var t := Next(s, Server(Eager));
            && Inv(t) && Replying(t) && !Declined(t) && t.port.pending == []
            && t.done == s.done && t.phase == s.phase && t.sent == s.sent
  {
    hide History, Pass, Frame, Taken, Asking, Flush;
    StepKeeps(s, Server(Eager));
    EagerHandled(s);
    EagerReplying(Next(s, Server(Eager)));
  }

  lemma EagerAsking(p: Port, last: Payload)
    requires WellFormed(p) && Partial(p) + p.rx == Frame(last) && p.pending == []
    requires p.expected == 0 || |p.request| < p.expected
    ensures var q := Pass(p, Eager);
            q.handled == p.handled + [Handled(last, Some([0]))] && q.pending == []
  {
    assert Frame(last) + [] == Frame(last);
    ReadOneFrame(p, last, []);
  }

  /** With nothing pending, what waits in the queue is exactly what is missing of the reply. */
  lemma ReplySizes(s: System)
    requires Inv(s) && Replying(s) && !Declined(s) && s.port.pending == []
    ensures s.phase.Header? ==> |s.port.tx| >= 2 && s.port.tx[0] == |s.port.tx| - 1
    ensures s.phase.Body? ==> |s.port.tx| == s.phase.want - |s.phase.got| > 0
  {
    hide History, Matched;
    var f := Frame(s.port.handled[|s.sent| - 1].reply.value);
    assert Taken(s.phase) + s.port.tx == f by { assert s.port.tx + [] == s.port.tx; }
    assert f[0] == |f| - 1;
    if s.phase.Body? {
      assert f[0] == s.phase.want;
    }
  }

  lemma EagerReceive(s: System, n: nat)
    requires Inv(s) && Replying(s) && !Declined(s) && s.port.pending == []
    requires n >= 1
    ensures var t := Next(s, Label.Receive(n));
            && Inv(t)
            && (t.phase.Idle? ==> |t.done| == |s.done| + 1)
            && (!t.phase.Idle? ==>
                  Replying(t) && !Declined(t) && t.port.pending == [] && t.phase.Body? && t.done == s.done)
            && (s.phase.Body? && n >= PACKET_MAX ==> t.phase.Idle?)
  {
    hide History, Matched, Frame;
    StepKeeps(s, Label.Receive(n));
    ReplySizes(s);
  }

  /** No deadlock: from every reachable state the exchange in progress can be completed in three more steps,
      unless the plugin has declined to answer it. */
  lemma ExchangeCanComplete(s: System)
    requires Inv(s) && !s.phase.Idle? && !Declined(s)
    ensures var t := Resume(s, FINISH); Inv(t) && t.phase.Idle? && |t.done| == |s.done| + 1
  {
    var s1 := Next(s, Server(Eager));
    EagerPass(s);
    var s2 := Next(s1, Label.Receive(1));
    EagerReceive(s1, 1);
    if !s2.phase.Idle? {
      EagerReceive(s2, PACKET_MAX);
    }
    ResumeTwo(s1, Label.Receive(1), Label.Receive(PACKET_MAX));
    ResumeCons(s, Server(Eager), TAKE);
    hide Inv, Declined, Replying, Resume, Next;
  }

  lemma ResumeCons(s: System, l: Label, rest: seq<Label>)
    requires Sound(s)
    ensures Resume(s, [l] + rest) == Resume(Advance(s, l), rest)
  {
    hide Advance;
    assert ([l] + rest)[1..] == rest;
  }

  lemma ResumeTwo(s: System, a: Label, b: Label)
    requires Sound(s)
    ensures Resume(s, [a, b]) == Advance(Advance(s, a), b)
  {
    ResumeCons(s, a, [b]);
    ResumeCons(Advance(s, a), b, []);
    ResumeNone(Advance(Advance(s, a), b));
    hide *;
    assert [a] + [b] == [a, b] && [b] + [] == [b];
  }

  lemma ResumeNone(s: System)
    requires Sound(s)
    ensures Resume(s, []) == s
  {
  }

  /** If it has declined, no run completes the exchange: the client waits until it gives up. */
  lemma {:induction false} DeclinedNeverCompletes(s: System, ls: seq<Label>)
    requires Inv(s) && Declined(s) && Abandon !in ls
    ensures var t := Resume(s, ls); Inv(t) && Declined(t) && t.done == s.done && t.phase == s.phase
    decreases |ls|
  {
    if ls != [] {
      if Enabled(s, ls[0]) {
        DeclinedStays(s, ls[0]);
      }
      hide Inv, Declined, Next;
      DeclinedNeverCompletes(Advance(s, ls[0]), ls[1..]);
    }
  }

  lemma DeclinedStays(s: System, l: Label)
    requires Inv(s) && Declined(s) && Enabled(s, l) && l != Abandon
    ensures var t := Next(s, l); Inv(t) && Declined(t) && t.done == s.done && t.phase == s.phase
  {
    StepKeeps(s, l);
    assert Taken(s.phase) == [] && s.port.tx == [] && s.port.pending == [];
    hide History;
    match l
    case Receive(n) => FeedNothing(s.capacity, s.phase, s.port.tx);
    case Server(c) => IdlePass(s.port, c);
    case _ =>
  }

  /** A pass that is offered all bytes reads exactly one frame, whatever follows it. */
  lemma ReadOneFrame(p: Port, r: Payload, more: seq<byte>)
    requires WellFormed(p) && Partial(p) + p.rx == Frame(r) + more
    requires p.expected == 0 || |p.request| < p.expected
    ensures var got := ServerPort.Receive(p, Got(1), Got(PACKET_MAX));
            && got.status > 0 && got.port.request == r && got.port.rx == more
            && got.port.tx == p.tx && got.port.pending == p.pending && got.port.handled == p.handled
  {
    FrameTail(p, r, more);
    if p.expected == 0 {
      ReadFrameBody(Take(p, 1).(expected := p.rx[0], request := []), r, more);
    } else {
      ReadFrameBody(p, r, more);
    }
  }

  /** Behind the length byte of the frame. */
  lemma FrameTail(p: Port, r: Payload, more: seq<byte>)
    requires WellFormed(p) && Partial(p) + p.rx == Frame(r) + more
    ensures if p.expected == 0 then |p.rx| > 0 && p.rx[0] == |r| && [] + p.rx[1..] == r + more
            else p.expected == |r| && p.request + p.rx == r + more
  {
    var f := Frame(r) + more;
    assert f[0] == |r| && f[1..] == r + more;
    if p.expected == 0 {
      assert p.rx == f;
    } else {
      var g := Partial(p) + p.rx;
      assert g[0] == p.expected && g[1..] == p.request + p.rx;
    }
  }

  lemma ReadFrameBody(p: Port, r: Payload, more: seq<byte>)
    requires WellFormed(p) && p.expected == |r| && |p.request| < p.expected
    requires p.request + p.rx == r + more
    ensures var got := ReceiveBody(p, Got(PACKET_MAX));
            && got.status > 0 && got.port.request == r && got.port.rx == more
            && got.port.tx == p.tx && got.port.pending == p.pending && got.port.handled == p.handled
  {
    var f := r + more;
    assert |p.rx| == |f| - |p.request|;
    var n := p.expected - |p.request|;
    assert p.request + p.rx[..n] == f[..|r|] == r;
    assert p.rx[n..] == f[|r|..] == more;
  }
}
