/** The serial transport's transmit ring: a 4096-byte circular queue between libsquid's bursts and a device that takes
    bytes in pieces of its own choosing. */
module TxRing {
  import opened Bytes

  const CAPACITY: nat := 4096

  datatype Ring = Ring(queue: seq<byte>, head: nat, count: nat)

  predicate Valid(r: Ring) { |r.queue| == CAPACITY && r.head < CAPACITY && r.count <= CAPACITY }

  /** The queued bytes, oldest first. */
  function Contents(r: Ring): (s: seq<byte>)
    requires Valid(r)
    ensures |s| == r.count
  {
    seq(r.count, i requires 0 <= i < r.count => r.queue[(r.head + i) % CAPACITY])
  }

  /** serial_send_char. */
  function Send(r: Ring, c: byte): (Ring, bool)
    requires Valid(r)
  {
    if r.count >= CAPACITY then (r, false)
    else (r.(queue := r.queue[(r.head + r.count) % CAPACITY := c], count := r.count + 1), true)
  }

  /** What write(2) may do. */
  datatype Outcome = Wrote(n: nat) | Interrupted | WouldBlock | Broken

  /** How many bytes lie in one piece from the head on. */
  function Contiguous(r: Ring): (n: nat)
    requires Valid(r)
    ensures n <= r.count && r.head + n <= CAPACITY && (r.count > 0 ==> n > 0)
  {
    Min(CAPACITY - r.head, r.count)
  }

  function Advance(r: Ring, n: nat): (s: Ring)
    requires Valid(r) && n <= Contiguous(r)
    ensures Valid(s)
  {
    r.(head := (r.head + n) % CAPACITY, count := r.count - n)
  }

  datatype Flushed = Flushed(ring: Ring, written: seq<byte>, ok: bool)

  /** flush_output against a script of writes; a device that is done with the script would block. */
  function Flush(r: Ring, script: seq<Outcome>): (f: Flushed)
    requires Valid(r)
    ensures Valid(f.ring)
    decreases |script|
  {
    if r.count == 0 then Flushed(r.(head := 0), [], true)
    else if script == [] then Flushed(r, [], true)
    else
      match script[0]
      case Interrupted => Flush(r, script[1..])
      case WouldBlock => Flushed(r, [], true)
      case Broken => Flushed(r, [], false)
      case Wrote(n) =>
        var k := Min(n, Contiguous(r));
        if k == 0 then Flushed(r, [], false)
        else
          var f := Flush(Advance(r, k), script[1..]);
          f.(written := r.queue[r.head..r.head + k] + f.written)
  }

  /** What the device's answer leads to while bytes are waiting: an interrupted write is repeated, one that would block
      ends the flush well, and a broken one or one of no bytes ends it badly; and an empty ring is always flushed. */
  lemma FlushCases(r: Ring, script: seq<Outcome>)
    requires Valid(r)
    ensures r.count == 0 ==> Flush(r, script).ok && Flush(r, script).written == [] && Flush(r, script).ring.count == 0
    ensures Flush(r, [Interrupted] + script) == Flush(r, script)
    ensures r.count > 0 ==>
              && Flush(r, [WouldBlock] + script) == Flushed(r, [], true)
              && Flush(r, [Broken] + script) == Flushed(r, [], false)
              && Flush(r, [Wrote(0)] + script) == Flushed(r, [], false)
  {
    assert ([Interrupted] + script)[1..] == script;
  }

  /** A flush that has already handed over `done`. */
  function Resumed(done: seq<byte>, f: Flushed): Flushed { f.(written := done + f.written) }

  /** One turn of the loop. */
  lemma FlushTurn(done: seq<byte>, r: Ring, script: seq<Outcome>)
    requires Valid(r) && r.count > 0
    ensures var f, outcome := Resumed(done, Flush(r, script)), if script == [] then WouldBlock else script[0];
            match outcome
            case Interrupted => script != [] && f == Resumed(done, Flush(r, script[1..]))
            case WouldBlock => f == Flushed(r, done, true)
            case Broken => f == Flushed(r, done, false)
            case Wrote(n) =>
              && script != []
              && var k := Min(n, Contiguous(r));
                 if k == 0 then f == Flushed(r, done, false)
                 else f == Resumed(done + r.queue[r.head..r.head + k], Flush(Advance(r, k), script[1..]))
  {
    hide Advance, Contiguous;
    assert done + [] == done;
    if script != [] && script[0].Wrote? {
      var k := Min(script[0].n, Contiguous(r));
      if k > 0 {
        var piece, rest := r.queue[r.head..r.head + k], Flush(Advance(r, k), script[1..]);
        assert done + (piece + rest.written) == (done + piece) + rest.written;
      }
    }
  }

  lemma NothingYet(f: Flushed)
    ensures Resumed([], f) == f
  {
    assert [] + f.written == f.written;
  }

  lemma FlushNothing(done: seq<byte>, r: Ring, script: seq<Outcome>)
    requires Valid(r) && r.count == 0
    ensures Resumed(done, Flush(r, script)) == Flushed(r.(head := 0), done, true)
  {
    assert done + [] == done;
  }

  lemma SendAppends(r: Ring, c: byte)
    requires Valid(r)
    ensures var (s, ok) := Send(r, c);
            Valid(s) && ok == (r.count < CAPACITY) && Contents(s) == if ok then Contents(r) + [c] else Contents(r)
  {
    if r.count < CAPACITY {
      var s := Send(r, c).0;
      forall i | 0 <= i < s.count
        ensures Contents(s)[i] == (Contents(r) + [c])[i]
      {
        OtherCell(r.head, i, r.count);
      }
    }
  }

  /** Cells of the ring with different distances from the head are different. */
  lemma OtherCell(head: nat, i: nat, j: nat)
    requires head < CAPACITY && i <= j < CAPACITY
    ensures (head + i) % CAPACITY == (head + j) % CAPACITY <==> i == j
  {
    Wrap(head, i);
    Wrap(head, j);
  }

  lemma Wrap(head: nat, i: nat)
    requires head < CAPACITY && i < CAPACITY
    ensures (head + i) % CAPACITY == if head + i < CAPACITY then head + i else head + i - CAPACITY
  {
  }

  lemma AdvanceDrops(r: Ring, n: nat)
    requires Valid(r) && n <= Contiguous(r)
    ensures Contents(r) == r.queue[r.head..r.head + n] + Contents(Advance(r, n))
  {
    var s, t := Advance(r, n), r.queue[r.head..r.head + n] + Contents(Advance(r, n));
    forall i | 0 <= i < r.count
      ensures Contents(r)[i] == t[i]
    {
      Wrap(r.head, i);
      if n <= i {
        assert (s.head + (i - n)) % CAPACITY == (r.head + i) % CAPACITY;
      }
    }
  }

  /** A flush hands over the oldest bytes in order and keeps the others. */
  lemma {:induction false} FlushIsFifo(r: Ring, script: seq<Outcome>)
    requires Valid(r)
    ensures var f := Flush(r, script);
            Contents(r) == f.written + Contents(f.ring) && (f.ring.count == 0 && f.ok ==> f.ring.head == 0)
    decreases |script|
  {
    hide Contents, Advance, Contiguous, Flush;
    if r.count == 0 {
      FlushEmpty(r, script);
      Emptied(r);
    } else {
      FlushTurn([], r, script);
      ResumedNone(Flush(r, script));
      if script != [] && script[0].Interrupted? {
        ResumedNone(Flush(r, script[1..]));
        FlushIsFifo(r, script[1..]);
      } else if script != [] && script[0].Wrote? {
        var k := Min(script[0].n, Contiguous(r));
        if k > 0 {
          AdvanceDrops(r, k);
          FlushIsFifo(Advance(r, k), script[1..]);
        }
      }
    }
  }

  lemma FlushEmpty(r: Ring, script: seq<Outcome>)
    requires Valid(r) && r.count == 0
    ensures Flush(r, script) == Flushed(r.(head := 0), [], true)
  {
  }

  lemma ResumedNone(f: Flushed)
    ensures Resumed([], f) == f
  {
    assert [] + f.written == f.written;
  }

  lemma Emptied(r: Ring)
    requires Valid(r) && r.count == 0
    ensures Contents(r) == [] && Contents(r.(head := 0)) == []
  {
  }

  /** A device that keeps taking bytes gets all of them, and the ring starts over at its first cell. */
  lemma {:induction false} FlushDrains(r: Ring, script: seq<Outcome>)
    requires Valid(r) && |script| >= r.count
    requires forall k | 0 <= k < |script| :: script[k].Wrote? && script[k].n > 0
    ensures var f := Flush(r, script);
            f.ok && f.ring.count == 0 && f.ring.head == 0 && f.written == Contents(r)
    decreases |script|
  {
    FlushIsFifo(r, script);
    if r.count > 0 {
      var k := Min(script[0].n, Contiguous(r));
      assert script[0].Wrote?;
      FlushDrains(Advance(r, k), script[1..]);
    }
  }

  // ----- runs -----------------------------------------------------------------------------------------------------

  datatype Event = Enqueue(c: byte) | Drain(script: seq<Outcome>)

  /** The ring, with all bytes ever accepted and all bytes the device ever took. */
  datatype State = State(ring: Ring, accepted: seq<byte>, written: seq<byte>)

  function Step(s: State, e: Event): State
    requires Valid(s.ring)
  {
    match e
    case Enqueue(c) =>
      var (ring, ok) := Send(s.ring, c);
      State(ring, if ok then s.accepted + [c] else s.accepted, s.written)
    case Drain(script) =>
      var f := Flush(s.ring, script);
      State(f.ring, s.accepted, s.written + f.written)
  }

  function Run(start: Ring, events: seq<Event>): (s: State)
    requires Valid(start) && start.count == 0
    ensures Valid(s.ring)
    decreases |events|
  {
    if events == [] then State(start, [], [])
    else
      var before := Run(start, events[..|events| - 1]);
      Step(before, events[|events| - 1])
  }

  /** The ring refines a bounded FIFO: after any events, the accepted bytes are those the device took followed by those
      in the ring, in order; and the next byte is refused exactly when 4096 accepted bytes have not been taken. */
  lemma {:induction false} RingIsFifo(start: Ring, events: seq<Event>, c: byte)
    requires Valid(start) && start.count == 0
    ensures var s := Run(start, events);
            && s.accepted == s.written + Contents(s.ring)
            && s.ring.head < CAPACITY && s.ring.count <= CAPACITY
            && (Send(s.ring, c).1 <==> |s.accepted| - |s.written| < CAPACITY)
    decreases |events|
  {
    if events != [] {
      var n := |events| - 1;
      RingIsFifo(start, events[..n], c);
      var before := Run(start, events[..n]);
      hide Contents, Send;
      match events[n]
      case Enqueue(b) =>
        SendAppends(before.ring, b);
        assert before.written + (Contents(before.ring) + [b]) == (before.written + Contents(before.ring)) + [b];
      case Drain(script) =>
        FlushIsFifo(before.ring, script);
        var f := Flush(before.ring, script);
        assert before.written + (f.written + Contents(f.ring)) == (before.written + f.written) + Contents(f.ring);
    }
    SendAppends(Run(start, events).ring, c);
  }

  // ----- the transport --------------------------------------------------------------------------------------------

  class Device {
    var written: seq<byte>
    var script: seq<Outcome>

    constructor ()
      ensures written == [] && script == []
    {
      written, script := [], [];
    }

    /** write(2): takes a prefix, or nothing. */
    method Write(bytes: seq<byte>) returns (outcome: Outcome)
      modifies this
      ensures old(script) == [] ==> outcome == WouldBlock && script == []
      ensures old(script) != [] ==>
                && script == old(script)[1..]
                && outcome == match old(script)[0] case Wrote(n) => Wrote(Min(n, |bytes|)) case other => other
      ensures written == old(written) + (if outcome.Wrote? then bytes[..outcome.n] else [])
    {
      outcome := WouldBlock;
      if script != [] {
        outcome, script := script[0], script[1..];
      }
      if outcome.Wrote? {
        outcome := Wrote(Min(outcome.n, |bytes|));
        written := written + bytes[..outcome.n];
      }
    }
  }

  class SerialTransport {
    const device: Device
    const txQueue: array<byte>
    var txHead: nat
    var txCount: nat

    ghost function View(): Ring
      reads this, txQueue
    {
      Ring(txQueue[..], txHead, txCount)
    }

    constructor (device: Device)
      ensures Valid(View()) && txCount == 0 && this.device == device && fresh(txQueue)
    {
      this.device := device;
      txQueue := new byte[CAPACITY];
      txHead, txCount := 0, 0;
    }

    /** serial_send_char: 0, or -1 when the ring is full. */
    method SendChar(c: byte) returns (code: int)
      requires Valid(View())
      modifies txQueue, this`txCount
      ensures View() == Send(old(View()), c).0 && (code == 0 <==> Send(old(View()), c).1) && -1 <= code <= 0
    {
      if txCount >= CAPACITY {
        return -1;
      }
      var tail := (txHead + txCount) % CAPACITY;
      txQueue[tail] := c;
      txCount := txCount + 1;
      return 0;
    }

    method FirstPiece() returns (contiguous: nat)
      requires Valid(View())
      ensures contiguous == Contiguous(View())
    {
      contiguous := CAPACITY - txHead;
      if contiguous > txCount {
        contiguous := txCount;
      }
    }

    method Forward(n: nat)
      requires Valid(View()) && n <= Contiguous(View())
      modifies this`txHead, this`txCount
      ensures View() == Advance(old(View()), n)
    {
      txHead := (txHead + n) % CAPACITY;
      txCount := txCount - n;
    }

    /** flush_output. */
    method FlushOutput() returns (code: int)
      requires Valid(View())
      modifies this`txHead, this`txCount, device
      ensures var f := Flush(old(View()), old(device.script));
              View() == f.ring && device.written == old(device.written) + f.written && code == if f.ok then 0 else -1
    {
      hide Flush, Advance, Contiguous, Resumed;
      ghost var before := device.written;
      ghost var whole := Flush(View(), device.script);
      ghost var done: seq<byte> := [];
      NothingYet(whole);
      while txCount != 0
        invariant Valid(View()) && device.written == before + done
        invariant whole == Resumed(done, Flush(View(), device.script))
        decreases |device.script|, if device.script == [] then 1 else 0
      {
        var contiguous := FirstPiece();
        FlushTurn(done, View(), device.script);
        ghost var cells := txQueue[..];
        var outcome := device.Write(txQueue[txHead..txHead + contiguous]);
        if outcome.Wrote? && outcome.n > 0 {
          ghost var piece := cells[txHead..txHead + outcome.n];
          assert piece == cells[txHead..txHead + contiguous][..outcome.n];
          done := done + piece;
          Forward(outcome.n);
          continue;
        }
        if outcome.Interrupted? {
          continue;
        }
        if outcome.WouldBlock? {
          return 0;
        }
        return -1;
      }
      FlushNothing(done, View(), device.script);
      txHead := 0;
      return 0;
    }

    /** serial_transport_pending_output. */
    method PendingOutput() returns (n: nat)
      requires Valid(View())
      ensures n == |Contents(View())|
    {
      return txCount;
    }
  }
}
