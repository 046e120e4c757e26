/** What an abandoned exchange does to the following ones, and exactly when it does nothing to them. */
module GivingUp {
  import opened Bytes
  import opened Framing
  import opened ServerPort
  import opened Exchange

  /** What the first frame of the reply queue means to an exchange. */
  function FirstFrame(capacity: nat, tx: seq<byte>): Completed
    requires tx != [] && tx[0] < |tx|
  {
    var n: nat := tx[0];
    Completed(tx[..1 + n], if n == 0 then ProtocolError else ReplyOutcome(capacity, n, tx[1..1 + n]))
  }

  /** The reply queue begins with a whole frame: it ends an exchange that has read nothing yet, whosever it is. */
  lemma TakeFirst(s: System)
    requires Sound(s) && s.phase.Header? && s.port.tx != [] && s.port.tx[0] < |s.port.tx|
    ensures var t := Resume(s, TAKE);
            && t.phase.Idle? && t.sent == s.sent && t.port.handled == s.port.handled
            && t.done == s.done + [Ended(|s.sent| - 1, FirstFrame(s.capacity, s.port.tx))]
  {
    TakeHeader(s);
    var s1 := Next(s, Label.Receive(1));
    if s.port.tx[0] > 0 {
      TakeBody(s1, s.port.tx);
    }
    hide Next, Sound, Resume;
    ResumeTwo(s, Label.Receive(1), Label.Receive(PACKET_MAX));
  }

  lemma TakeHeader(s: System)
    requires Sound(s) && s.phase.Header? && s.port.tx != [] && s.port.tx[0] < |s.port.tx|
    ensures var n, t := s.port.tx[0], Next(s, Label.Receive(1));
            && t.sent == s.sent && t.port == s.port.(tx := s.port.tx[1..])
            && if n > 0 then t.phase == Body(n, []) && t.done == s.done
               else t.phase.Idle? && t.done == s.done + [Ended(|s.sent| - 1, FirstFrame(s.capacity, s.port.tx))]
  {
    assert s.port.tx[..1] == [s.port.tx[0]];
  }

  lemma TakeBody(s: System, tx: seq<byte>)
    requires Sound(s) && tx != [] && 0 < tx[0] < |tx| && s.phase == Body(tx[0], []) && s.port.tx == tx[1..]
    ensures var t := Next(s, Label.Receive(PACKET_MAX));
            && t.phase.Idle? && t.sent == s.sent && t.port.handled == s.port.handled
            && t.done == s.done + [Ended(|s.sent| - 1, FirstFrame(s.capacity, tx))]
  {
    var n: nat := tx[0];
    FeedBody(s.capacity, tx);
    hide Feed, FirstFrame, Sound;
    assert Min(PACKET_MAX, Min(Wanted(s.phase), |s.port.tx|)) == n;
  }

  lemma FeedBody(capacity: nat, tx: seq<byte>)
    requires tx != [] && 0 < tx[0] < |tx|
    ensures Feed(capacity, Body(tx[0], []), tx[1..][..tx[0]]) == Done(FirstFrame(capacity, tx))
  {
    var n: nat := tx[0];
    var body := tx[1..][..n];
    assert body == tx[1..1 + n] && [] + body == body;
    assert tx[..1 + n] == [tx[0]] + body;
  }

  /** The pass that hands the next request to a plugin that answers `p`. */
  function Answering(p: Payload): Choice { Choice(true, Got(1), Got(PACKET_MAX), InPlace(p), true) }

  lemma AnsweringPass(port: Port, r: Payload, more: seq<byte>, p: Payload)
    requires WellFormed(port) && Partial(port) + port.rx == Frame(r) + more && port.pending == []
    requires port.expected == 0 || |port.request| < port.expected
    ensures var q := Pass(port, Answering(p));
            && q.tx == port.tx + Frame(p) && q.pending == [] && q.rx == more && q.expected == 0
            && q.handled == port.handled + [Handled(r, Some(p))]
  {
    ReadOneFrame(port, r, more);
  }

  /** Whenever an exchange is abandoned while its request is on the way, the next exchange can complete with the reply
      to the abandoned request, before its own request has reached the plugin. */
  lemma AbandonedExchangeMisleads(s: System, own: Payload, p: Payload)
    requires Inv(s) && Asking(s) && |own| <= s.capacity
    ensures var t := Resume(Next(s, Abandon), [Start(own)] + ([Server(Answering(p))] + TAKE));
            && t.sent == s.sent + [own]
            && t.port.handled == s.port.handled + [Handled(s.sent[|s.sent| - 1], Some(p))]
            && t.done == s.done + [Ended(|s.sent|, Completed(Frame(p), ReplyOutcome(s.capacity, |p|, p)))]
  {
    hide Inv, Asking, Pass, Frame, Feed, Partial, TAKE, Next, Resume, Sound;
    AbandonedAnswered(s, own, p);
    TakeWhole(Next(Next(Next(s, Abandon), Start(own)), Server(Answering(p))), p);
    ResumeChain(Next(s, Abandon), Start(own), Server(Answering(p)), TAKE);
  }

  /** The reply queue holds one reply, whosever it is. */
  lemma TakeWhole(s: System, p: Payload)
    requires Sound(s) && s.phase.Header? && s.port.tx == Frame(p)
    ensures var t := Resume(s, TAKE);
            && t.sent == s.sent && t.port.handled == s.port.handled
            && t.done == s.done + [Ended(|s.sent| - 1, Completed(Frame(p), ReplyOutcome(s.capacity, |p|, p)))]
  {
    hide *;
    WholeFrame(s.capacity, p);
    TakeFirst(s);
  }

  lemma ResumeChain(s: System, a: Label, b: Label, rest: seq<Label>)
    requires Sound(s) && Enabled(s, a) && Enabled(Next(s, a), b)
    ensures Resume(s, [a] + ([b] + rest)) == Resume(Next(Next(s, a), b), rest)
  {
    hide Enabled, Next, Resume;
    ResumeCons(s, a, [b] + rest);
    ResumeCons(Next(s, a), b, rest);
  }

  lemma AbandonedAnswered(s: System, own: Payload, p: Payload)
    requires Inv(s) && Asking(s) && |own| <= s.capacity
    ensures Sound(s) && Enabled(s, Abandon)
    ensures var a := Next(s, Abandon);
            && Enabled(a, Start(own))
            && var b := Next(a, Start(own));
               var c := Next(b, Server(Answering(p)));
               && c.phase.Header? && c.sent == s.sent + [own] && c.done == s.done && c.port.tx == Frame(p)
               && c.port.handled == s.port.handled + [Handled(s.sent[|s.sent| - 1], Some(p))]
  {
    var b := Next(Next(s, Abandon), Start(own));
    hide History;
    Associate(Partial(s.port), s.port.rx, Frame(own));
    AnsweringPass(b.port, s.sent[|s.sent| - 1], Frame(own), p);
    assert [] + Frame(p) == Frame(p);
  }

  lemma WholeFrame(capacity: nat, p: Payload)
    ensures [] + Frame(p) == Frame(p) && Frame(p)[0] == |p| < |Frame(p)|
    ensures FirstFrame(capacity, Frame(p)) == Completed(Frame(p), ReplyOutcome(capacity, |p|, p))
  {
    var f := Frame(p);
    assert f[..1 + |p|] == f && f[1..1 + |p|] == p;
  }

  /** The pass that only flushes. */
  const Flushing := Choice(true, Got(0), Got(0), Suppressed, true)

  /** A new exchange whose request waits in the queue behind bytes of an old reply. */
  ghost predicate Stale(s: System, own: Payload)
  {
    && Sound(s) && s.phase.Header? && |s.sent| == |s.port.handled| + 1 && s.sent[|s.sent| - 1] == own
    && s.port.tx != [] && s.port.pending == [] && s.port.expected == 0 && s.port.rx == Frame(own)
  }

  const OWN: Payload := [0]

  /** After a reply is abandoned, the next exchange finds what is left of it. */
  lemma LeavesStale(s: System)
    requires Inv(s) && Replying(s) && !Declined(s)
    ensures Stale(Resume(Next(s, Abandon), [Start(OWN), Server(Flushing)]), OWN)
  {
    var a := Next(s, Abandon);
    var b := Next(a, Start(OWN));
    var c := Next(b, Server(Flushing));
    assert [] + Frame(OWN) == Frame(OWN);
    assert s.port.tx + s.port.pending != [] by {
      var f := Frame(s.port.handled[|s.sent| - 1].reply.value);
      Associate(Taken(s.phase), s.port.tx, s.port.pending);
      if s.phase.Body? {
        assert f[0] == s.phase.want;
      }
    }
    FlushingPass(b.port);
    hide Pass, Inv, Replying;
    ResumeCons(b, Server(Flushing), []);
    ResumeCons(a, Start(OWN), [Server(Flushing)]);
    assert [Start(OWN)] + [Server(Flushing)] == [Start(OWN), Server(Flushing)];
    assert [Server(Flushing)] + [] == [Server(Flushing)];
  }

  lemma FlushingPass(p: Port)
    requires WellFormed(p) && p.expected == 0
    ensures Pass(p, Flushing) == Flush(p) && Flush(p).tx == p.tx + p.pending
  {
    assert p.tx + [] == p.tx;
  }

  /** A reply whose length byte is not `b`, long enough to fill up a frame that begins with `b`. */
  function OtherReply(b: byte): (q: Payload)
    ensures |q| != b && |q| + 1 >= b
  {
    if b == 255 then seq(254, _ => 0) else seq(255, _ => 0)
  }

  /** The left-over bytes end the new exchange: alone, before its request is handled, or together with the beginning of
      its own reply, which they do not spell. */
  lemma StaleMisleads(s: System, own: Payload) returns (ls: seq<Label>)
    requires Stale(s, own)
    ensures Abandon !in ls && !OwnReplies(Resume(s, ls))
  {
    var b := s.port.tx[0];
    if b < |s.port.tx| {
      ls := TAKE;
      TakeFirst(s);
      hide Resume;
      NotOwn(Resume(s, ls), |s.done|);
    } else {
      var q := OtherReply(b);
      var t := Next(s, Server(Answering(q)));
      StaleAnswered(s, own, q);
      ls := [Server(Answering(q))] + TAKE;
      hide Stale, Resume, Next;
      TakeFirst(t);
      ResumeCons(s, Server(Answering(q)), TAKE);
      NotOwn(Resume(s, ls), |s.done|);
    }
  }

  /** The own reply joins the left-over bytes. */
  lemma StaleAnswered(s: System, own: Payload, q: Payload)
    requires Stale(s, own)
    ensures var t := Next(s, Server(Answering(q)));
            && t.phase.Header? && t.sent == s.sent && t.done == s.done
            && t.port.tx == s.port.tx + Frame(q) && t.port.tx[0] == s.port.tx[0]
            && t.port.handled == s.port.handled + [Handled(own, Some(q))]
  {
    assert Frame(own) + [] == Frame(own) && [] + s.port.rx == s.port.rx;
    AnsweringPass(s.port, own, [], q);
  }

  /** An ended exchange whose request was not handled, or whose bytes begin with another length, is not own. */
  lemma NotOwn(s: System, j: nat)
    requires j < |s.done| && s.done[j].result.consumed != []
    requires s.done[j].number >= |s.port.handled|
             || (s.port.handled[s.done[j].number].reply.Some?
                 && s.done[j].result.consumed[0] != |s.port.handled[s.done[j].number].reply.value|)
    ensures !OwnReplies(s)
  {
    assert !Own(s, s.done[j]);
  }

  /** Unless the plugin has declined it, giving up an exchange can make the next one end with bytes that are not the
      reply to its request. */
  lemma GivingUpMisleads(s: System) returns (ls: seq<Label>)
    requires Inv(s) && !s.phase.Idle? && !Declined(s)
    ensures Abandon !in ls && !OwnReplies(Resume(Next(s, Abandon), ls))
  {
    if Asking(s) {
      ls := [Start(OWN)] + ([Server(Answering(OWN))] + TAKE);
      AbandonedExchangeMisleads(s, OWN, OWN);
      hide Inv, Resume;
      NotOwn(Resume(Next(s, Abandon), ls), |s.done|);
    } else {
      var before := [Start(OWN), Server(Flushing)];
      LeavesStale(s);
      hide Inv, Replying, Stale, OwnReplies;
      var rest := StaleMisleads(Resume(Next(s, Abandon), before), OWN);
      ResumeAppend(Next(s, Abandon), before, rest);
      ls := before + rest;
    }
  }

  lemma {:induction false} ResumeAppend(s: System, a: seq<Label>, b: seq<Label>)
    requires Sound(s)
    ensures Resume(s, a + b) == Resume(Resume(s, a), b)
    decreases |a|
  {
    if a == [] {
      assert a + b == b;
    } else {
      ResumeAppend(Advance(s, a[0]), a[1..], b);
      assert (a + b)[1..] == a[1..] + b;
    }
  }

  /** The exact condition: giving up the exchange in progress leaves every later exchange with the reply to its own
      request, in every continuation, if and only if the plugin has declined to answer it. */
  lemma GivingUpExactly(s: System)
    requires Inv(s) && !s.phase.Idle?
    ensures (forall ls | Abandon !in ls :: OwnReplies(Resume(Next(s, Abandon), ls))) <==> Declined(s)
    ensures Declined(s) ==> forall ls | Careful(Next(s, Abandon), ls) :: OwnReplies(Resume(Next(s, Abandon), ls))
  {
    var t := Next(s, Abandon);
    if Declined(s) {
      AbandonKeeps(s);
      forall ls | Careful(t, ls)
        ensures OwnReplies(Resume(t, ls))
      {
        RunKeeps(t, ls);
      }
      hide Inv, Declined, Next, Resume, OwnReplies;
      forall ls | Abandon !in ls
        ensures OwnReplies(Resume(t, ls))
      {
        NeverGivesUp(t, ls);
      }
    } else {
      var ls := GivingUpMisleads(s);
      hide Inv, Declined, Next, Resume, OwnReplies;
      assert !OwnReplies(Resume(t, ls));
    }
  }
}
