/** The dispatch loop of the server over its sixteen port slots, proved against ServerPort. */
module ServerRuntime {
  import opened Bytes
  import opened Framing
  import opened ServerPort

  const PORT_MIN: nat := 1
  const PORT_MAX: nat := 15
  const PORT_COUNT: nat := 16

  /** The libsquid queues of one socket, with the history that ServerPort speaks about. */
  datatype Wire = Wire(
    rx: seq<byte>, tx: seq<byte>, consumed: seq<byte>, accepted: seq<byte>, handled: seq<Handled>)

  class Runtime {
    const squidFds: array<int>
    const requestPackets: array<seq<byte>>
    const requestSizes: array<nat>
    const requestExpected: array<nat>
    const pendingResponses: array<seq<byte>>
    const pendingSizes: array<nat>
    const wires: array<Wire>

    constructor (fds: seq<int>)
      requires |fds| == PORT_COUNT
      ensures Valid() && fresh(Buffers())
      ensures squidFds[..] == fds
      ensures forall p | 0 <= p < PORT_COUNT :: View(p) == Fresh
    {
      squidFds := new int[PORT_COUNT](i requires 0 <= i < |fds| => fds[i]);
      requestPackets := new seq<byte>[PORT_COUNT](_ => seq(PACKET_MAX, _ => 0));
      requestSizes := new nat[PORT_COUNT](_ => 0);
      requestExpected := new nat[PORT_COUNT](_ => 0);
      pendingResponses := new seq<byte>[PORT_COUNT](_ => seq(PACKET_MAX + 1, _ => 0));
      pendingSizes := new nat[PORT_COUNT](_ => 0);
      wires := new Wire[PORT_COUNT](_ => Wire([], [], [], [], []));
      new;
      assert squidFds[..] == fds;
    }

    ghost function Buffers(): set<object>
    {
      {requestPackets, requestSizes, requestExpected, pendingResponses, pendingSizes, wires}
    }

    ghost predicate Shaped()
    {
      && squidFds.Length == requestPackets.Length == requestSizes.Length == requestExpected.Length == PORT_COUNT
      && pendingResponses.Length == pendingSizes.Length == wires.Length == PORT_COUNT
      && requestPackets != pendingResponses
      && requestSizes != requestExpected && requestSizes != pendingSizes && requestExpected != pendingSizes
    }

    ghost predicate Valid()
      reads Buffers()
    {
      && Shaped()
      && (forall p | 0 <= p < PORT_COUNT :: |requestPackets[p]| == PACKET_MAX)
      && (forall p | 0 <= p < PORT_COUNT :: |pendingResponses[p]| == PACKET_MAX + 1)
      && (forall p | 0 <= p < PORT_COUNT :: requestSizes[p] <= requestExpected[p])
      && (forall p | 0 <= p < PORT_COUNT :: requestExpected[p] <= PACKET_MAX)
      && (forall p | 0 <= p < PORT_COUNT :: pendingSizes[p] <= PACKET_MAX + 1)
    }

    ghost function View(p: nat): (v: Port)
      reads Buffers()
      requires Valid() && p < PORT_COUNT
      ensures WellFormed(v)
    {
      Port(
        requestExpected[p], requestPackets[p][..requestSizes[p]], pendingResponses[p][..pendingSizes[p]],
        wires[p].rx, wires[p].tx, wires[p].consumed, wires[p].accepted, wires[p].handled)
    }

    /** Only the slots of `port` may differ from the pre-state. */
    twostate predicate OthersKept(port: nat)
      reads Buffers()
      requires Shaped()
    {
      forall p | 0 <= p < PORT_COUNT && p != port ::
        && requestPackets[p] == old(requestPackets[p]) && pendingResponses[p] == old(pendingResponses[p])
        && requestSizes[p] == old(requestSizes[p]) && requestExpected[p] == old(requestExpected[p])
        && pendingSizes[p] == old(pendingSizes[p]) && wires[p] == old(wires[p])
    }

    /** squid_recv: a failure, or some of the bytes that have arrived, in order. */
    method SquidRecv(port: nat, wanted: nat, outcome: Recv) returns (received: int, bytes: seq<byte>)
      requires Valid() && port < PORT_COUNT
      modifies wires
      ensures Valid()
      ensures forall p | 0 <= p < PORT_COUNT && p != port :: wires[p] == old(wires[p])
      ensures outcome.RecvError? ==> received == -1 && wires[port] == old(wires[port])
      ensures outcome.Got? ==>
                var w := old(wires[port]);
                && received == Granted(outcome, wanted, |w.rx|) == |bytes|
                && bytes == w.rx[..received]
                && wires[port] == w.(rx := w.rx[received..], consumed := w.consumed + bytes)
    {
      if outcome.RecvError? {
        return -1, [];
      }
      var w := wires[port];
      received := Min(outcome.n, Min(wanted, |w.rx|));
      bytes := w.rx[..received];
      wires[port] := w.(rx := w.rx[received..], consumed := w.consumed + bytes);
    }

    /** squid_send: all of the bytes are taken, or none. */
    method SquidSend(port: nat, bytes: seq<byte>, accept: bool) returns (result: int)
      requires Valid() && port < PORT_COUNT
      modifies wires
      ensures Valid()
      ensures forall p | 0 <= p < PORT_COUNT && p != port :: wires[p] == old(wires[p])
      ensures result >= 0 <==> accept
      ensures !accept ==> wires[port] == old(wires[port])
      ensures accept ==>
                var w := old(wires[port]);
                wires[port] == w.(tx := w.tx + bytes, accepted := w.accepted + bytes)
    {
      if !accept {
        return -1;
      }
      var w := wires[port];
      wires[port] := w.(tx := w.tx + bytes, accepted := w.accepted + bytes);
      return |bytes|;
    }

    method ReceivePluginPacket(port: nat, header: Recv, body: Recv) returns (status: int)
      requires Valid() && port < PORT_COUNT
      modifies requestPackets, requestSizes, requestExpected, wires
      ensures Valid() && OthersKept(port)
      ensures Received(View(port), status) == ServerPort.Receive(old(View(port)), header, body)
    {
      hide ReceiveBody;
      if requestExpected[port] == 0 {
        var received, bytes := SquidRecv(port, 1, header);
        if received <= 0 {
          assert received == 0 ==> wires[port] == old(wires[port]) by {
            assert old(wires[port]).consumed + [] == old(wires[port]).consumed;
          }
          return received;
        }
        var wireSize := bytes[0];
        assert requestSizes[port] == 0;
        if wireSize == 0 {
          return -1;
        }
        requestExpected[port] := wireSize;
        requestSizes[port] := 0;
        assert View(port) == Take(old(View(port)), 1).(expected := old(wires[port]).rx[0], request := []);
      }
      status := CollectBody(port, body);
    }

    /** The payload part of receive_plugin_packet. */
    method CollectBody(port: nat, body: Recv) returns (status: int)
      requires Valid() && port < PORT_COUNT && 0 < requestExpected[port]
      modifies requestPackets, requestSizes, wires
      ensures Valid() && OthersKept(port)
      ensures Received(View(port), status) == ReceiveBody(old(View(port)), body)
    {
      if requestSizes[port] < requestExpected[port] {
        var size := requestSizes[port];
        var wanted := requestExpected[port] - size;
        var received, bytes := SquidRecv(port, wanted, body);
        if received < 0 {
          return -1;
        }
        var packet := requestPackets[port];
        requestPackets[port] := packet[..size] + bytes + packet[size + received..];
        requestSizes[port] := size + received;
        assert requestPackets[port][..size + received] == packet[..size] + bytes;
      }
      status := if requestSizes[port] == requestExpected[port] then 1 else 0;
    }

    /** The plugin call for a complete request, and the first attempt to send its reply. */
    method HandlePacket(port: nat, reply: Reply, send: bool)
      requires Valid() && port < PORT_COUNT
      requires 0 < requestExpected[port] == requestSizes[port] && pendingSizes[port] == 0
      modifies Buffers()
      ensures Valid() && OthersKept(port)
      ensures View(port) == Answer(old(View(port)), reply, send)
    {
      var request: Payload := requestPackets[port][..requestSizes[port]];
      var kept := ValidReply(reply);
      if reply.InPlace? && |reply.data| <= PACKET_MAX {
        var buffer := pendingResponses[port];
        pendingResponses[port] := buffer[..1] + reply.data + buffer[1 + |reply.data|..];
      }
      if kept.Some? {
        var size := |reply.data|;
        var framedSize := size + 1;
        pendingResponses[port] := pendingResponses[port][0 := size];
        var frame := pendingResponses[port][..framedSize];
        assert frame == Frame(kept.value);
        var sent := SquidSend(port, frame, send);
        if sent >= 0 {
          framedSize := 0;
        }
        pendingSizes[port] := framedSize;
      }
      requestSizes[port] := 0;
      requestExpected[port] := 0;
      wires[port] := wires[port].(handled := wires[port].handled + [Handled(request, kept)]);
    }

    method DispatchPort(port: nat, c: Choice)
      requires Valid() && port < PORT_COUNT
      modifies Buffers()
      ensures Valid() && OthersKept(port)
      ensures View(port) == Pass(old(View(port)), c)
    {
      if pendingSizes[port] > 0 {
        var sent := SquidSend(port, pendingResponses[port][..pendingSizes[port]], c.flush);
        if sent < 0 {
          return;
        }
        pendingSizes[port] := 0;
      }
      assert View(port) == Flush(old(View(port)));
      var status := ReceivePluginPacket(port, c.header, c.body);
      if status > 0 {
        HandlePacket(port, c.reply, c.send);
      }
    }

    /** One pass over all assignable ports: each open port makes exactly its own pass, every other slot is untouched. */
    method DispatchReceivedPackets(choices: seq<Choice>)
      requires Valid() && |choices| == PORT_COUNT
      modifies Buffers()
      ensures Valid()
      ensures forall p | 0 <= p < PORT_COUNT ::
                View(p) == (if PORT_MIN <= p && squidFds[p] >= 0 then Pass(old(View(p)), choices[p]) else old(View(p)))
    {
      ghost var start := seq(PORT_COUNT, p requires 0 <= p < PORT_COUNT reads Buffers() requires Valid() => View(p));
      for port := PORT_MIN to PORT_MAX + 1
        invariant Valid()
        invariant forall p | 0 <= p < PORT_COUNT ::
                    View(p)
                    == if PORT_MIN <= p < port && squidFds[p] >= 0 then Pass(start[p], choices[p]) else start[p]
      {
        if squidFds[port] >= 0 {
          label before:
          DispatchPort(port, choices[port]);
          forall p | 0 <= p < PORT_COUNT && p != port
            ensures View(p) == old@before(View(p))
          {
          }
        }
      }
    }

    /** The link is lost: every partial request and every pending reply is dropped. */
    method ResetPorts()
      requires Valid()
      modifies requestSizes, requestExpected, pendingSizes
      ensures Valid()
      ensures forall p | PORT_MIN <= p <= PORT_MAX ::
                View(p) == old(View(p)).(expected := 0, request := [], pending := [])
      ensures View(0) == old(View(0))
    {
      for port := PORT_MIN to PORT_MAX + 1
        invariant Valid()
        invariant forall p | PORT_MIN <= p < port ::
                    requestSizes[p] == 0 && requestExpected[p] == 0 && pendingSizes[p] == 0
        invariant forall p | p == 0 || port <= p < PORT_COUNT ::
                    && requestSizes[p] == old(requestSizes[p]) && requestExpected[p] == old(requestExpected[p])
                    && pendingSizes[p] == old(pendingSizes[p])
      {
        requestSizes[port] := 0;
        requestExpected[port] := 0;
        pendingSizes[port] := 0;
      }
    }
  }
}
