/** The portable synchronous client transaction, over a scripted link. */
module Client {
  import opened Bytes
  import opened Framing
  import opened ServerPort
  import opened Exchange

  const ERROR_ARGUMENT: int := -1
  const ERROR_LINK: int := -2
  const ERROR_IO: int := -3
  const ERROR_PROTOCOL: int := -4
  const ERROR_OVERFLOW: int := -5
  const ERROR_CANCELLED: int := -6

  /** What the idle hook and the link epoch say after an incomplete receive. */
  datatype Wait = GoOn | Cancel | LinkLost

  datatype Poll = Poll(outcome: Recv, wait: Wait)

  /** The client's end of one libsquid socket within one call. `incoming` are the bytes that arrive during the call,
      in order; the script of polls says in which pieces, and when it runs out the idle hook cancels. */
  class Link {
    var outgoing: seq<byte>
    var incoming: seq<byte>
    var polls: seq<Poll>

    constructor (incoming: seq<byte>, polls: seq<Poll>)
      ensures outgoing == [] && this.incoming == incoming && this.polls == polls
    {
      outgoing, this.incoming, this.polls := [], incoming, polls;
    }

    method Recv(wanted: nat) returns (received: int, bytes: seq<byte>, wait: Wait)
      modifies this`incoming, this`polls
      ensures polls == if old(polls) == [] then [] else old(polls)[1..]
      ensures -1 <= received <= wanted && received <= |old(incoming)|
      ensures received == -1 ==> incoming == old(incoming)
      ensures received >= 0 ==> bytes == old(incoming)[..received] && incoming == old(incoming)[received..]
      ensures old(polls) == [] ==> received == 0 && wait == Cancel
      ensures old(polls) != [] ==>
                && wait == old(polls)[0].wait
                && received == if old(polls)[0].outcome.RecvError? then -1
                               else Granted(old(polls)[0].outcome, wanted, |old(incoming)|)
    {
      if polls == [] {
        return 0, [], Cancel;
      }
      var poll := polls[0];
      polls := polls[1..];
      if poll.outcome.RecvError? {
        return -1, [], poll.wait;
      }
      received := Granted(poll.outcome, wanted, |incoming|);
      bytes, wait := incoming[..received], poll.wait;
      incoming := incoming[received..];
    }
  }

  /** The code wait_for_progress returns. */
  function WaitCode(w: Wait): int
  {
    match w
    case GoOn => 0
    case Cancel => ERROR_CANCELLED
    case LinkLost => ERROR_LINK
  }

  /** What receive_bytes comes to: how many bytes it took, its code, and the polls not made. */
  datatype Collected = Collected(taken: nat, code: int, polls: seq<Poll>)

  /** receive_bytes for `size` bytes when `available` bytes arrive during the call. */
  function Collect(polls: seq<Poll>, available: nat, size: nat): (r: Collected)
    requires size > 0
    ensures r.taken <= size && r.taken <= available && (r.code == 0 <==> r.taken == size)
    ensures r.code != 0 ==> Interrupted(r.code)
    decreases |polls|
  {
    if polls == [] then Collected(0, ERROR_CANCELLED, [])
    else if polls[0].outcome.RecvError? then Collected(0, ERROR_IO, polls[1..])
    else
      var n := Granted(polls[0].outcome, size, available);
      if n == size then Collected(n, 0, polls[1..])
      else if WaitCode(polls[0].wait) != 0 then Collected(n, WaitCode(polls[0].wait), polls[1..])
      else
        Later(n, Collect(polls[1..], available - n, size - n))
  }

  /** Why a collection stops: it has made the first `k` polls, all of them but the last one brought too little and let
      it go on, and the last one completed it, failed, was cancelled or lost the link; or there was none left. */
  lemma {:induction false} CollectStops(polls: seq<Poll>, available: nat, size: nat) returns (k: nat)
    requires size > 0
    ensures var r := Collect(polls, available, size);
            && k <= |polls| && r.polls == polls[k..]
            && (forall j | 0 <= j < k - 1 :: polls[j].outcome.Got? && polls[j].wait == GoOn)
            && (r.code == ERROR_IO <==> k > 0 && polls[k - 1].outcome.RecvError?)
            && (r.code == ERROR_LINK ==> k > 0 && polls[k - 1].wait == LinkLost)
            && (r.code == ERROR_CANCELLED ==> if k > 0 && polls[k - 1].wait == Cancel then true else k == |polls|)
    decreases |polls|
  {
    hide Collect, Granted;
    CollectTurn(0, polls, available, size);
    LaterNone(Collect(polls, available, size));
    k := 0;
    if polls != [] {
      k := 1;
      var poll := polls[0];
      if poll.outcome.Got? && Granted(poll.outcome, size, available) != size && poll.wait == GoOn {
        var n := Granted(poll.outcome, size, available);
        var m := CollectStops(polls[1..], available - n, size - n);
        k := m + 1;
        assert polls[k..] == polls[1..][m..];
        assert forall j | 1 <= j < k :: polls[j] == polls[1..][j - 1];
      }
    }
  }

  /** A collection that is let go on completes as soon as enough bytes came in: with polls that each bring at least one
      byte, after at most as many polls as bytes. */
  lemma {:induction false} CollectCompletes(polls: seq<Poll>, available: nat, size: nat)
    requires 0 < size <= available && size <= |polls|
    requires forall j | 0 <= j < |polls| :: polls[j].outcome.Got? && polls[j].outcome.n > 0 && polls[j].wait == GoOn
    ensures Collect(polls, available, size).code == 0
    decreases |polls|
  {
    var n := Granted(polls[0].outcome, size, available);
    if n < size {
      CollectCompletes(polls[1..], available - n, size - n);
    }
  }

  /** A collection that has already taken `n` bytes. */
  function Later(n: nat, r: Collected): Collected { r.(taken := n + r.taken) }

  /** One turn of receive_bytes after `received` bytes. */
  lemma CollectTurn(received: nat, polls: seq<Poll>, available: nat, size: nat)
    requires size > 0
    ensures var r := Later(received, Collect(polls, available, size));
            if polls == [] then r == Collected(received, ERROR_CANCELLED, [])
            else if polls[0].outcome.RecvError? then r == Collected(received, ERROR_IO, polls[1..])
            else
              var n := Granted(polls[0].outcome, size, available);
              if n == size then r == Collected(received + n, 0, polls[1..])
              else if WaitCode(polls[0].wait) != 0 then
                r == Collected(received + n, WaitCode(polls[0].wait), polls[1..])
              else r == Later(received + n, Collect(polls[1..], available - n, size - n))
  {
  }

  lemma LaterNone(r: Collected)
    ensures Later(0, r) == r
  {
  }

  /** The first `received` bytes of the stream lie over what the buffer held before. */
  ghost predicate Stored(stream: seq<byte>, received: nat, initial: seq<byte>, b: seq<byte>)
  {
    received <= |stream| && received <= |initial| && b == stream[..received] + initial[received..]
  }

  lemma StoredNone(stream: seq<byte>, initial: seq<byte>)
    ensures Stored(stream, 0, initial, initial) && stream[0..] == stream
  {
  }

  /** `n` more bytes of the stream behind the `received` ones. */
  lemma Grows(stream: seq<byte>, received: nat, n: nat, initial: seq<byte>, b: seq<byte>, c: seq<byte>)
    requires Stored(stream, received, initial, b) && received + n <= |stream| && received + n <= |initial| == |b|
    requires c == b[..received] + stream[received..][..n] + b[received + n..]
    ensures Stored(stream, received + n, initial, c) && stream[received..][n..] == stream[received + n..]
  {
    assert stream[..received + n] == stream[..received] + stream[received..][..n];
  }

  /** The drain loop: `size` bytes in parts of at most `capacity`. */
  function Drained(polls: seq<Poll>, available: nat, size: nat, capacity: nat): (r: Collected)
    requires capacity > 0
    ensures r.taken <= size && r.taken <= available && (r.code == 0 <==> r.taken == size)
    ensures r.code != 0 ==> Interrupted(r.code)
    decreases size
  {
    if size == 0 then Collected(0, 0, polls)
    else
      var part := if size > capacity then capacity else size;
      var first := Collect(polls, available, part);
      if first.code != 0 then first
      else
        Later(part, Drained(first.polls, available - part, size - part, capacity))
  }

  /** One transaction behind an accepted request, over the bytes that arrive during the call. */
  function Transacted(polls: seq<Poll>, stream: seq<byte>, capacity: nat): (r: Collected)
    requires 0 < capacity
    ensures r.taken <= |stream|
  {
    var header := Collect(polls, |stream|, 1);
    if header.code != 0 then header
    else if stream[0] == 0 then header.(code := ERROR_PROTOCOL)
    else if stream[0] > capacity then
      var body := Drained(header.polls, |stream| - 1, stream[0], capacity);
      Collected(1 + body.taken, if body.code == 0 then ERROR_OVERFLOW else body.code, body.polls)
    else
      var body := Collect(header.polls, |stream| - 1, stream[0]);
      Collected(1 + body.taken, if body.code == 0 then stream[0] else body.code, body.polls)
  }

  /** Whatever the pieces, the polls and the waits: a transaction that is not interrupted has taken exactly the bytes
      of the reply and ends with what they mean; one that is interrupted has taken fewer. */
  lemma TransactedMeansReply(polls: seq<Poll>, stream: seq<byte>, capacity: nat)
    requires 0 < capacity
    ensures var r := Transacted(polls, stream, capacity);
            match ReplyOf(capacity, stream)
            case None => Interrupted(r.code)
            case Some(reply) =>
              if Interrupted(r.code) then r.taken < |reply.consumed|
              else
                && stream[..r.taken] == reply.consumed
                && match reply.outcome
                   case Success(payload) => r.code == |payload| && payload == stream[1..r.taken]
                   case Overflow => r.code == ERROR_OVERFLOW
                   case ProtocolError => r.code == ERROR_PROTOCOL
  {
    hide Collect, Drained;
  }

  predicate Interrupted(code: int)
  {
    code == ERROR_IO || code == ERROR_CANCELLED || code == ERROR_LINK
  }

  class SquidClient {
    const packet: array<byte>
    const capacity: nat

    constructor (workspace: array<byte>, capacity: nat)
      requires workspace.Length == capacity + 1
      ensures packet == workspace && this.capacity == capacity
    {
      packet, this.capacity := workspace, capacity;
    }

    /** One receive, stored behind the `at` bytes of the stream already collected. */
    method RecvInto(
        link: Link, destination: array<byte>, at: nat, wanted: nat, ghost stream: seq<byte>, ghost initial: seq<byte>)
      returns (n: int, wait: Wait)
      requires at + wanted <= destination.Length == |initial|
      requires at <= |stream| && link.incoming == stream[at..] && Stored(stream, at, initial, destination[..])
      modifies link`incoming, link`polls, destination
      ensures link.polls == if old(link.polls) == [] then [] else old(link.polls)[1..]
      ensures if old(link.polls) == [] then n == 0 && wait == Cancel
              else
                && wait == old(link.polls)[0].wait
                && n == if old(link.polls)[0].outcome.RecvError? then -1
                        else Granted(old(link.polls)[0].outcome, wanted, |stream| - at)
      ensures -1 <= n <= wanted
      ensures var now := if n < 0 then at else at + n;
              now <= |stream| && link.incoming == stream[now..] && Stored(stream, now, initial, destination[..])
    {
      hide Stored, Granted;
      var bytes;
      ghost var before := destination[..];
      n, bytes, wait := link.Recv(wanted);
      if n >= 0 {
        CopyInto(destination, at, bytes);
        assert destination[..] == before[..at] + stream[at..][..n] + before[at + n..];
        Grows(stream, at, n, initial, before, destination[..]);
      }
    }

    /** Collects `size` bytes from the link into the workspace, or stops early with the reason. */
    method ReceiveBytes(link: Link, destination: array<byte>, size: nat) returns (code: int, ghost taken: nat)
      requires 0 < size <= destination.Length
      modifies link`incoming, link`polls, destination
      ensures taken <= size && taken <= |old(link.incoming)|
      ensures link.incoming == old(link.incoming)[taken..]
      ensures Stored(old(link.incoming), taken, old(destination[..]), destination[..])
      ensures Collected(taken, code, link.polls) == Collect(old(link.polls), |old(link.incoming)|, size)
    {
      hide Collect, Granted, Stored, Later;
      var received := 0;
      ghost var stream := link.incoming;
      ghost var initial := destination[..];
      ghost var whole := Collect(link.polls, |stream|, size);
      StoredNone(stream, initial);
      LaterNone(whole);
      while received < size
        invariant received < size && received <= |stream|
        invariant link.incoming == stream[received..] && Stored(stream, received, initial, destination[..])
        invariant whole == Later(received, Collect(link.polls, |stream| - received, size - received))
        decreases |link.polls|, if link.polls == [] then 1 else 0
      {
        CollectTurn(received, link.polls, |stream| - received, size - received);
        var n, wait := RecvInto(link, destination, received, size - received, stream, initial);
        if n < 0 {
          return ERROR_IO, received;
        }
        received := received + n;
        if received == size {
          return 0, received;
        }
        var waitCode := WaitCode(wait);
        if waitCode != 0 {
          return waitCode, received;
        }
      }
      assert false;  // the loop returns as soon as the last byte is there
    }

    predicate Rejected(requestSize: nat)
    {
      capacity == 0 || capacity > PACKET_MAX || requestSize == 0 || requestSize > capacity
    }

    /** Reads and throws away the `size` payload bytes of a reply that does not fit. */
    method Drain(link: Link, size: nat) returns (code: int, ghost taken: nat)
      requires 0 < capacity < packet.Length && 0 < size
      modifies link`incoming, link`polls, packet
      ensures taken <= size && taken <= |old(link.incoming)| && link.incoming == old(link.incoming)[taken..]
      ensures Collected(taken, code, link.polls) == Drained(old(link.polls), |old(link.incoming)|, size, capacity)
    {
      hide Collect;
      var remaining := size;
      code, taken := 0, 0;
      while remaining > 0
        invariant 0 <= remaining <= size && taken == size - remaining && taken <= |old(link.incoming)|
        invariant link.incoming == old(link.incoming)[taken..]
        invariant Drained(old(link.polls), |old(link.incoming)|, size, capacity)
                  == Later(taken, Drained(link.polls, |link.incoming|, remaining, capacity))
      {
        var part := remaining;
        if part > capacity {
          part := capacity;
        }
        ghost var more;
        code, more := ReceiveBytes(link, packet, part);
        taken := taken + more;
        if code != 0 {
          return;
        }
        remaining := remaining - part;
      }
      code := 0;
    }

    /** One transaction. A refused request changes nothing on the link. A request that was accepted is on the wire as
        one frame; the call then either ends with what the incoming stream means, having taken exactly those bytes,
        or is interrupted before the reply is complete. */
    method Exchange(link: Link, requestSize: nat, linkUp: bool, accepted: bool)
      returns (code: int, ghost taken: nat)
      requires packet.Length == capacity + 1
      modifies packet, link
      ensures Rejected(requestSize) ==> code == ERROR_ARGUMENT
      ensures !Rejected(requestSize) && !linkUp ==> code == ERROR_LINK
      ensures !Rejected(requestSize) && linkUp && !accepted ==> code == ERROR_IO
      ensures Rejected(requestSize) || !linkUp || !accepted ==>
                link.outgoing == old(link.outgoing) && taken == 0
      ensures taken <= |old(link.incoming)| && link.incoming == old(link.incoming)[taken..]
      ensures !Rejected(requestSize) && linkUp && accepted ==>
                Collected(taken, code, link.polls) == Transacted(old(link.polls), old(link.incoming), capacity)
      ensures !Rejected(requestSize) && linkUp && accepted ==>
                && link.outgoing == old(link.outgoing) + Frame(old(packet[1..1 + requestSize]))
                && var stream := old(link.incoming);
                   match ReplyOf(capacity, stream)
                   case None => Interrupted(code)
                   case Some(reply) =>
                     if Interrupted(code) then taken < |reply.consumed|
                     else
                       && stream[..taken] == reply.consumed
                       && match reply.outcome
                          case Success(payload) => code == |payload| && packet[..code] == payload
                          case Overflow => code == ERROR_OVERFLOW
                          case ProtocolError => code == ERROR_PROTOCOL
    {
      taken := 0;
      if capacity == 0 || capacity > PACKET_MAX || requestSize == 0 || requestSize > capacity {
        return ERROR_ARGUMENT, 0;
      }
      if !linkUp {
        return ERROR_LINK, 0;
      }
      ghost var request: Payload := packet[1..1 + requestSize];
      packet[0] := requestSize;
      if !accepted {
        return ERROR_IO, 0;
      }
      link.outgoing := link.outgoing + packet[..requestSize + 1];
      assert packet[..requestSize + 1] == Frame(request);

      ghost var stream := link.incoming;
      code, taken := Transact(link);
      TransactedMeansReply(old(link.polls), stream, capacity);
    }

    /** The receiving half of a transaction. */
    method Transact(link: Link) returns (code: int, ghost taken: nat)
      requires 0 < capacity <= PACKET_MAX && packet.Length == capacity + 1
      modifies packet, link`incoming, link`polls
      ensures taken <= |old(link.incoming)| && link.incoming == old(link.incoming)[taken..]
      ensures Collected(taken, code, link.polls) == Transacted(old(link.polls), old(link.incoming), capacity)
      ensures code > 0 ==> code < |old(link.incoming)| && packet[..code] == old(link.incoming)[1..1 + code]
    {
      hide Collect, Drained;
      ghost var stream := link.incoming;
      var header := new byte[1];
      code, taken := ReceiveBytes(link, header, 1);
      if code != 0 {
        return;
      }
      var responseSize := header[0];
      assert responseSize == header[..1][0] == stream[..1][0] == stream[0];
      if responseSize == 0 {
        code := ERROR_PROTOCOL;
        return;
      }
      ghost var more;
      if responseSize > capacity {
        code, more := Drain(link, responseSize);
        taken := taken + more;
        if code == 0 {
          code := ERROR_OVERFLOW;
        }
        return;
      }
      code, more := ReceiveBytes(link, packet, responseSize);
      taken := taken + more;
      if code == 0 {
        assert stream[1..][..responseSize] == stream[1..1 + responseSize as nat];
        code := responseSize;
      }
    }
  }
}
