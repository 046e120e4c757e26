/** The single-stream TCP proxy over a network that may answer anything: the sockets it holds are the active stream or
    none, and every branch accounts for each of them. */
module TcpProxy {
  import opened Bytes
  import opened Records
  import opened TcpHosts

  const OP_CAPABILITIES: byte := 0
  const OP_CONNECT: byte := 1
  const OP_WRITE: byte := 2
  const OP_READ: byte := 3
  const OP_CLOSE: byte := 4
  const OP_STATUS: byte := 5

  const OK: byte := 0
  const BAD_REQUEST: byte := 1
  const NOT_CONNECTED: byte := 2
  const DNS_FAILED: byte := 3
  const CONNECT_FAILED: byte := 4
  const IO_ERROR: byte := 5
  const TIMEOUT: byte := 6
  const DENIED: byte := 7

  const FAMILY_IPV4: byte := 4
  const FAMILY_IPV6: byte := 6
  const READ_EOF: byte := 1
  const READ_HEADER: nat := 4
  const READ_WAIT_MAX: nat := 10000
  const LIST_MAX: nat := 1024
  const TIMEOUT_DEFAULT: nat := 5000
  const TIMEOUT_MAX: nat := 60000

  /** The bytes that went out and came in over one socket. */
  datatype Stream = Stream(sent: seq<byte>, received: seq<byte>)

  const NewStream := Stream([], [])

  /** The errno values the proxy tells apart. */
  datatype Errno = ETIMEDOUT | EAGAIN | EINPROGRESS | OtherError

  /** What poll says: ready, nothing within the time, or an error. */
  datatype Poll = Ready | Nothing | PollError

  /** What the network answered to one call. */
  datatype NetEvent =
    | Opened(ok: bool, errno: Errno)
    | Called(ok: bool, errno: Errno)
    | Waited(poll: Poll, ms: nat, errno: Errno)
    | Sent(n: int, errno: Errno)
    | Got(n: int, data: seq<byte>, errno: Errno)

  predicate IsWait(e: NetEvent, poll: Poll, ms: nat) { e.Waited? && e.poll == poll && e.ms == ms }

  /** The answers under which an address connects: at once, or after a wait of at most `ms` without error. */
  predicate Connected(steps: seq<NetEvent>, ms: nat)
  {
    && (|steps| == 3 || |steps| == 5)
    && steps[0].Opened? && steps[0].ok && steps[1].Called? && steps[1].ok && steps[2].Called?
    && if |steps| == 3 then steps[2].ok
       else
         && !steps[2].ok && steps[2].errno == EINPROGRESS
         && IsWait(steps[3], Ready, ms) && steps[4].Called? && steps[4].ok
  }

  /** That is: a socket, non-blocking mode and a connection at once, or a connection in progress, a wait that ends in
      time, and no error on the socket then. */
  lemma ConnectedExactly(steps: seq<NetEvent>, ms: nat)
    ensures Connected(steps, ms)
            <==> || (exists a, b, c :: steps == [Opened(true, a), Called(true, b), Called(true, c)])
                 || (exists a, b, c, d ::
                       steps == [Opened(true, a), Called(true, b), Called(false, EINPROGRESS), Waited(Ready, ms, c),
                                 Called(true, d)])
  {
    if Connected(steps, ms) {
      if |steps| == 3 {
        assert steps == [Opened(true, steps[0].errno), Called(true, steps[1].errno), Called(true, steps[2].errno)];
      } else {
        assert steps == [Opened(true, steps[0].errno), Called(true, steps[1].errno), Called(false, EINPROGRESS),
                         Waited(Ready, ms, steps[3].errno), Called(true, steps[4].errno)];
      }
    }
  }

  /** The errno in which an attempt to connect fails with this answer: a wait that runs out stands for ETIMEDOUT. */
  function Reason(last: NetEvent): Errno
  {
    match last
    case Waited(poll, _, errno) => if poll == Nothing then ETIMEDOUT else errno
    case Opened(_, errno) => errno
    case Called(_, errno) => errno
    case Sent(_, errno) => errno
    case Got(_, _, errno) => errno
  }

  /** Without a socket there is nothing to close, so errno still is the reason; else closing was done over it. */
  predicate Blamed(last: NetEvent, over: Errno, now: Errno)
  {
    Reason(last) == if last.Opened? then now else over
  }

  function FailureStatus(errno: Errno): byte { if errno == ETIMEDOUT then TIMEOUT else CONNECT_FAILED }

  /** Exactly when a failed CONNECT reports the reason of its last attempt: when no socket was made, or when closing it
      turned errno neither into nor away from ETIMEDOUT. */
  lemma TimeoutExactly(last: NetEvent, over: Errno, now: Errno)
    requires Blamed(last, over, now)
    ensures FailureStatus(now) == FailureStatus(Reason(last))
            <==> last.Opened? || (now == ETIMEDOUT <==> over == ETIMEDOUT)
  {
  }

  /** What the answers to the one or two calls of WRITE or READ come to. */
  datatype Verdict = Moved | Ended | Idle | Fails

  /** Waiting, then sending or receiving: `Idle` when nothing could be done in time. */
  function Judge(steps: seq<NetEvent>, ms: nat): Option<Verdict>
  {
    if |steps| == 1 && IsWait(steps[0], Nothing, ms) then Some(Idle)
    else if |steps| == 1 && IsWait(steps[0], PollError, ms) then Some(Fails)
    else if |steps| != 2 || !IsWait(steps[0], Ready, ms) then None
    else
      match steps[1]
      case Sent(n, errno) => Some(if n > 0 then Moved else if n < 0 && errno == EAGAIN then Idle else Fails)
      case Got(n, _, errno) =>
        Some(if n > 0 then Moved else if n == 0 then Ended else if errno == EAGAIN then Idle else Fails)
      case _ => None
  }

  /** An address that getaddrinfo returned. */
  datatype Address = Inet | Inet6

  /** The proxy's sockets and the calls on them; every call may fail, and closing may change errno. `log` lists the
      answers of the network, `over` is the errno that stood when a socket was last closed, and `finished` are the
      sockets that recv has told to be at their end. */
  class Net {
    var streams: map<int, Stream>
    var counter: nat
    var errno: Errno
    ghost var log: seq<NetEvent>
    ghost var over: Errno
    ghost var finished: set<int>

    ghost predicate Valid()
      reads this
    {
      forall fd | fd in streams :: 0 <= fd < counter
    }

    constructor ()
      ensures Valid() && streams == map[]
    {
      streams, counter, errno, log, over, finished := map[], 0, OtherError, [], OtherError, {};
    }

    method Socket() returns (fd: int)
      requires Valid()
      modifies this
      ensures Valid() && -1 <= fd
      ensures fd < 0 ==> streams == old(streams)
      ensures fd >= 0 ==> fd !in old(streams) && streams == old(streams)[fd := NewStream]
      ensures log == old(log) + [Opened(fd >= 0, errno)]
    {
      errno := *;
      if * {
        log := log + [Opened(false, errno)];
        return -1;
      }
      log := log + [Opened(true, errno)];
      fd, counter := counter, counter + 1;
      streams := streams[fd := NewStream];
    }

    method Close(fd: int)
      requires Valid() && fd in streams
      modifies this`streams, this`errno, this`over
      ensures Valid() && streams == old(streams) - {fd} && over == old(errno)
    {
      streams := streams - {fd};
      over := errno;
      errno := *;
    }

    /** fcntl, connect, getsockopt: a call that leaves the sockets as they are. */
    method Call(fd: int) returns (ok: bool)
      requires fd in streams
      modifies this`errno, this`log
      ensures log == old(log) + [Called(ok, errno)]
    {
      errno := *;
      ok := *;
      log := log + [Called(ok, errno)];
    }

    /** wait_for_socket. */
    method Wait(fd: int, ms: nat) returns (r: Poll)
      requires fd in streams
      modifies this`errno, this`log
      ensures log == old(log) + [Waited(r, ms, errno)]
    {
      errno := *;
      r := *;
      log := log + [Waited(r, ms, errno)];
    }

    /** send: a prefix goes out, or nothing. */
    method Send(fd: int, data: seq<byte>) returns (n: int)
      requires Valid() && fd in streams
      modifies this`streams, this`errno, this`log
      ensures log == old(log) + [Sent(n, errno)]
      ensures Valid() && -1 <= n <= |data|
      ensures streams == if n <= 0 then old(streams)
                         else old(streams)[fd := old(streams)[fd].(sent := old(streams)[fd].sent + data[..n])]
    {
      errno, n := *, *;
      if n < -1 || n > |data| {
        n := -1;
      }
      log := log + [Sent(n, errno)];
      if n > 0 {
        streams := streams[fd := streams[fd].(sent := streams[fd].sent + data[..n])];
      }
    }

    /** recv: some bytes, 0, or an error (-1). Of a request for some bytes, 0 tells the end of the stream; a request for
        none tells nothing. */
    method Recv(fd: int, size: nat) returns (n: int, data: seq<byte>)
      requires Valid() && fd in streams
      modifies this`streams, this`errno, this`log, this`finished
      ensures log == old(log) + [Got(n, data, errno)]
      ensures finished == if n == 0 && size > 0 then old(finished) + {fd} else old(finished)
      ensures Valid() && -1 <= n <= size && (n >= 0 ==> |data| == n)
      ensures streams == if n <= 0 then old(streams)
                         else old(streams)[fd := old(streams)[fd].(received := old(streams)[fd].received + data)]
    {
      errno, n, data := *, *, *;
      if n < -1 || n > size || |data| != n {
        n, data := -1, [];
      }
      log := log + [Got(n, data, errno)];
      if n == 0 && size > 0 {
        finished := finished + {fd};
      }
      if n > 0 {
        streams := streams[fd := streams[fd].(received := streams[fd].received + data)];
      }
    }
  }

  /** The host and port of a CONNECT request. */
  function ConnectRequest(request: seq<byte>): (r: Option<(u16, seq<byte>)>)
    ensures r.Some? ==> r.value.0 > 0 && GoodHost(r.value.1)
  {
    if |request| < 5 || ReadU16(request, 1) == 0 || request[3] != |request| - 4 || !GoodHost(request[4..]) then None
    else Some((ReadU16(request, 1), request[4..]))
  }

  function WriteRequest(request: seq<byte>): (r: Option<seq<byte>>)
    ensures r.Some? ==> 0 < |r.value| <= 255
  {
    if |request| < 3 || request[1] != |request| - 2 || request[1] == 0 then None else Some(request[2..])
  }

  /** The decoding part of handle_connect, through a host buffer of its own. */
  method ReadConnectRequest(request: seq<byte>) returns (r: Option<(u16, seq<byte>)>)
    ensures r == ConnectRequest(request)
  {
    hide GoodHost;
    if |request| < 5 {
      return None;
    }
    var port := ReadU16(request, 1);
    if port == 0 || request[3] != |request| - 4 {
      return None;
    }
    var host := new byte[HOST_MAX + 1];
    var ok := HostIsValid(request[4..], host);
    return if ok then Some((port, request[4..])) else None;
  }

  /** READ has room for data exactly when the packet is longer than its header, whatever the request's limit. */
  lemma ReadRoomExactly(maximum: byte, capacity: nat)
    requires READ_HEADER <= capacity
    ensures PartSize(READ_HEADER, 255, maximum, capacity) > 0 <==> capacity > READ_HEADER
  {
  }

  /** A configured timeout: 0 stands for the default, and longer ones are cut. */
  function Clamped(ms: nat): (r: nat)
    ensures 0 < r <= TIMEOUT_MAX && (0 < ms <= TIMEOUT_MAX ==> r == ms)
  {
    Min(if ms == 0 then TIMEOUT_DEFAULT else ms, TIMEOUT_MAX)
  }

  class TcpContext {
    const net: Net
    const allowedHosts: seq<byte>
    const connectTimeout: nat
    const writeTimeout: nat
    var socketFd: int

    /** The open sockets are exactly the active stream, or none. */
    ghost predicate Valid()
      reads this, net
    {
      net.Valid() && -1 <= socketFd
      && net.streams.Keys == if socketFd >= 0 then {socketFd} else {}
    }

    /** The active stream. */
    ghost function Active(): Option<Stream>
      requires Valid()
      reads this, net
    {
      if socketFd < 0 then None else assert socketFd in net.streams; Some(net.streams[socketFd])
    }

    /** init_squid_tcp_context: the list is cut to its buffer, the timeouts to their range. */
    constructor (net: Net, allowedHosts: seq<byte>, connectMs: nat, writeMs: nat)
      requires net.Valid() && net.streams == map[]
      ensures Valid() && this.net == net && Active() == None
      ensures this.allowedHosts == allowedHosts[..Min(|allowedHosts|, LIST_MAX - 1)]
      ensures connectTimeout == Clamped(connectMs) && writeTimeout == Clamped(writeMs)
    {
      this.net, socketFd := net, -1;
      connectTimeout, writeTimeout := Clamped(connectMs), Clamped(writeMs);
      this.allowedHosts := allowedHosts[..Min(|allowedHosts|, LIST_MAX - 1)];
    }

    method CloseConnection()
      requires Valid()
      modifies this`socketFd, net`streams, net`errno, net`over
      ensures Valid() && Active() == None && net.streams == map[]
    {
      if socketFd >= 0 {
        net.Close(socketFd);
        socketFd := -1;
      }
      assert net.streams == map[];
    }

    /** connect_address: a connected socket that the caller owns, or none and nothing left behind. */
    method ConnectAddress(address: Address) returns (fd: int, ghost steps: seq<NetEvent>)
      requires net.Valid()
      modifies net
      ensures net.Valid() && -1 <= fd && net.log == old(net.log) + steps
      ensures fd >= 0 <==> Connected(steps, connectTimeout)
      ensures fd < 0 ==>
                && net.streams == old(net.streams)
                && steps != [] && Blamed(steps[|steps| - 1], net.over, net.errno)
      ensures fd >= 0 ==> fd !in old(net.streams) && net.streams == old(net.streams)[fd := NewStream]
    {
      fd := net.Socket();
      steps := [Opened(fd >= 0, net.errno)];
      if fd < 0 {
        return -1, steps;
      }
      var ok;
      ghost var more;
      ok, more := ConnectSocket(fd);
      steps := steps + more;
      if !ok {
        net.Close(fd);
        assert net.streams == old(net.streams);
        return -1, steps;
      }
    }

    /** The calls on the new socket; whether it is connected after them. */
    method ConnectSocket(fd: int) returns (ok: bool, ghost steps: seq<NetEvent>)
      requires fd in net.streams
      modifies net`errno, net`log
      ensures net.log == old(net.log) + steps
      ensures ok <==> Connected([Opened(true, OtherError)] + steps, connectTimeout)
      ensures steps != [] && !steps[|steps| - 1].Opened? && (!ok ==> Reason(steps[|steps| - 1]) == net.errno)
    {
      var nonblocking := net.Call(fd);
      steps := [Called(nonblocking, net.errno)];
      if !nonblocking {
        return false, steps;
      }
      var connected := net.Call(fd);
      steps := steps + [Called(connected, net.errno)];
      if connected {
        return true, steps;
      }
      if net.errno != EINPROGRESS {
        return false, steps;
      }
      var waited := net.Wait(fd, connectTimeout);
      steps := steps + [Waited(waited, connectTimeout, net.errno)];
      if !waited.Ready? {
        if waited.Nothing? {
          net.errno := ETIMEDOUT;
        }
        return false, steps;
      }
      var clean := net.Call(fd);
      steps := steps + [Called(clean, net.errno)];
      return clean, steps;
    }

    /** The address loop of CONNECT: the addresses are tried in order until one connects. `attempts` are the answers
        to each attempt. */
    method ConnectAny(addresses: seq<Address>) returns (fd: int, family: byte, ghost attempts: seq<seq<NetEvent>>)
      requires net.Valid()
      modifies net
      ensures net.Valid() && -1 <= fd && net.log == old(net.log) + Flat(attempts)
      ensures Tried(attempts, addresses, fd >= 0, connectTimeout)
      ensures fd < 0 ==> net.streams == old(net.streams) && LastBlamed(attempts, net.over, net.errno)
      ensures fd >= 0 ==>
                && fd !in old(net.streams) && net.streams == old(net.streams)[fd := NewStream]
                && family == Family(addresses[|attempts| - 1])
    {
      hide Connected, Blamed;
      fd, family, attempts := -1, 0, [];
      assert old(net.log) + [] == old(net.log);
      for i := 0 to |addresses|
        invariant fd == -1 && net.Valid() && net.streams == old(net.streams)
        invariant |attempts| == i && (forall k | 0 <= k < i :: !Connected(attempts[k], connectTimeout))
        invariant LastBlamed(attempts, net.over, net.errno)
        invariant net.log == old(net.log) + Flat(attempts)
      {
        ghost var steps;
        fd, steps := ConnectAddress(addresses[i]);
        FlatSnoc(old(net.log), attempts, steps);
        attempts := attempts + [steps];
        if fd >= 0 {
          family := Family(addresses[i]);
          return;
        }
      }
    }

    /** Every attempt but a successful last one failed, and without success all addresses were tried. */
    static ghost predicate Tried(attempts: seq<seq<NetEvent>>, addresses: seq<Address>, success: bool, ms: nat)
    {
      && |attempts| <= |addresses|
      && (if success then 0 < |attempts| && Connected(attempts[|attempts| - 1], ms) else |attempts| == |addresses|)
      && forall k | 0 <= k < (if success then |attempts| - 1 else |attempts|) :: !Connected(attempts[k], ms)
    }

    /** The reason of the last attempt, if there was one. */
    static ghost predicate LastBlamed(attempts: seq<seq<NetEvent>>, over: Errno, now: Errno)
    {
      attempts != [] ==>
        var steps := attempts[|attempts| - 1];
        steps != [] && Blamed(steps[|steps| - 1], over, now)
    }

    static function Family(a: Address): byte { if a.Inet6? then FAMILY_IPV6 else FAMILY_IPV4 }

    /** CONNECT. `found` are the addresses getaddrinfo returns, if it does. Only a connected new stream replaces the
        old one; every other outcome leaves the old stream as it is, and nothing else open. */
    method HandleConnect(request: seq<byte>, found: Option<seq<Address>>, response: array<byte>)
      returns (size: int, ghost attempts: seq<seq<NetEvent>>)
      requires Valid() && 2 <= response.Length
      modifies this`socketFd, net, response
      ensures Valid()
      ensures size == 3 || size == -1 ==>
                && ConnectRequest(request).Some? && found.Some?
                && Allowed(allowedHosts, ConnectRequest(request).value.1)
      ensures size == 3 ==>
                && Active() == Some(NewStream) && response.Length >= 3
                && response[..2] == [OP_CONNECT + RESPONSE_BIT, OK]
                && Tried(attempts, found.value, true, connectTimeout)
                && response[2] == Family(found.value[|attempts| - 1])
      ensures net.log == old(net.log) + Flat(attempts)
      ensures size == 2 && (response[1] == TIMEOUT || response[1] == CONNECT_FAILED) ==>
                && found.Some? && Tried(attempts, found.value, false, connectTimeout)
                && LastBlamed(attempts, net.over, net.errno)
      ensures size == 2 && response[1] != TIMEOUT && response[1] != CONNECT_FAILED ==> attempts == []
      ensures size != 3 ==> socketFd == old(socketFd) && net.streams == old(net.streams)
      ensures size == -1 ==> response.Length < 3
      ensures size == -1 || size == 3
              || (size == 2 && response[..2] == [OP_CONNECT + RESPONSE_BIT, ConnectStatus(request, found, net.errno)])
    {
      hide GoodHost, Allowed, NewStream, Tried, LastBlamed;
      attempts := [];
      assert net.log + [] == net.log;
      var fields := ReadConnectRequest(request);
      if fields.None? {
        size := WriteError(OP_CONNECT, BAD_REQUEST, response);
        return;
      }
      var (port, host) := fields.value;
      GoodIsSome(host);
      var allowed := HostIsAllowed(allowedHosts, host);
      if !allowed {
        size := WriteError(OP_CONNECT, DENIED, response);
        return;
      }
      if found.None? {
        size := WriteError(OP_CONNECT, DNS_FAILED, response);
        return;
      }
      var connectedFd, family;
      connectedFd, family, attempts := ConnectAny(found.value);
      if connectedFd < 0 {
        size := WriteError(OP_CONNECT, FailureStatus(net.errno), response);
        return;
      }
      if response.Length < 3 {
        net.Close(connectedFd);
        assert net.streams == old(net.streams);
        return -1, attempts;
      }
      if socketFd >= 0 {
        net.Close(socketFd);
      }
      socketFd := connectedFd;
      response[0], response[1], response[2] := OP_CONNECT + RESPONSE_BIT, OK, family;
      size := 3;
    }

    /** The status of a CONNECT that does not connect. */
    function ConnectStatus(request: seq<byte>, found: Option<seq<Address>>, errno: Errno): byte
    {
      if ConnectRequest(request).None? then BAD_REQUEST
      else if !Allowed(allowedHosts, ConnectRequest(request).value.1) then DENIED
      else if found.None? then DNS_FAILED
      else FailureStatus(errno)
    }

    /** WRITE: the bytes the reply counts went out over the active stream, and no others; an I/O error closes it. */
    method HandleWrite(request: seq<byte>, response: array<byte>)
      returns (size: int, ghost n: nat, ghost steps: seq<NetEvent>)
      requires Valid() && 2 <= response.Length
      modifies this`socketFd, net, response
      ensures Valid() && -1 <= size <= 3 && net.log == old(net.log) + steps
      ensures WriteRequest(request).None? ==> n == 0 && steps == [] && Answered(response, size, OP_WRITE, BAD_REQUEST)
      ensures WriteRequest(request).Some? && old(Active()).None? ==>
                n == 0 && steps == [] && Answered(response, size, OP_WRITE, NOT_CONNECTED)
      ensures WriteRequest(request).Some? && old(Active()).Some? ==>
                && Judge(steps, writeTimeout).Some? && (|steps| == 2 ==> steps[1].Sent?)
                && match Judge(steps, writeTimeout).value
                   case Idle => n == 0 && Answered(response, size, OP_WRITE, TIMEOUT)
                   case Moved =>
                     && 0 < n == steps[1].n <= |WriteRequest(request).value|
                     && if response.Length < 3 then size == -1
                        else size == 3 && response[..3] == [OP_WRITE + RESPONSE_BIT, OK, n]
                   case _ => n == 0 && Answered(response, size, OP_WRITE, IO_ERROR)
      ensures if Answered(response, size, OP_WRITE, IO_ERROR) then Active().None?
              else if n == 0 then Active() == old(Active())
              else
                && WriteRequest(request).Some? && n <= |WriteRequest(request).value| && old(Active()).Some?
                && var was := old(Active()).value;
                   Active() == Some(was.(sent := was.sent + WriteRequest(request).value[..n]))
    {
      n, steps := 0, [];
      assert net.log + [] == net.log;
      var data := WriteRequest(request);
      if data.None? {
        size := WriteError(OP_WRITE, BAD_REQUEST, response);
        return;
      }
      if socketFd < 0 {
        size := WriteError(OP_WRITE, NOT_CONNECTED, response);
        return;
      }
      var ready := net.Wait(socketFd, writeTimeout);
      steps := [Waited(ready, writeTimeout, net.errno)];
      if ready.Nothing? {
        size := WriteError(OP_WRITE, TIMEOUT, response);
        return;
      }
      if ready.PollError? {
        CloseConnection();
        size := WriteError(OP_WRITE, IO_ERROR, response);
        return;
      }
      var written := net.Send(socketFd, data.value);
      steps := steps + [Sent(written, net.errno)];
      if written <= 0 {
        if written < 0 && net.errno == EAGAIN {
          size := WriteError(OP_WRITE, TIMEOUT, response);
          return;
        }
        CloseConnection();
        size := WriteError(OP_WRITE, IO_ERROR, response);
        return;
      }
      n := written;
      if response.Length < 3 {
        return -1, n, steps;
      }
      response[0], response[1], response[2] := OP_WRITE + RESPONSE_BIT, OK, written;
      size := 3;
    }

    /** READ: the reply carries what came in over the active stream; the end of the stream and an I/O error close it.
        In a packet that is no longer than the header, recv is asked for nothing, and its 0 is taken for the end of a
        stream that may go on: exactly then the stream is closed without having ended. */
    method HandleRead(request: seq<byte>, response: array<byte>)
      returns (size: int, ghost data: seq<byte>, ghost steps: seq<NetEvent>)
      requires Valid() && 2 <= response.Length <= 255
      modifies this`socketFd, net, response
      ensures Valid() && -1 <= size <= response.Length && net.log == old(net.log) + steps
      ensures |request| != 4 ==> Answered(response, size, OP_READ, BAD_REQUEST)
      ensures |request| == 4 && old(Active()).None? ==> Answered(response, size, OP_READ, NOT_CONNECTED)
      ensures |request| == 4 && old(Active()).Some? && response.Length < READ_HEADER ==> size == -1
      ensures |request| == 4 && old(Active()).Some? && response.Length >= READ_HEADER ==>
                if ReadU16(request, 1) > READ_WAIT_MAX then
                  steps == [] && Answered(response, size, OP_READ, BAD_REQUEST)
                else
                  var room := PartSize(READ_HEADER, 255, request[3], response.Length);
                  ReadAnswer(steps, ReadU16(request, 1), data, room, response, size)
      ensures if response.Length > READ_HEADER then
                Ended(response, size) && |steps| == 2 ==> old(socketFd) in net.finished
              else
                && net.finished == old(net.finished)
                && (|steps| == 2 && steps[1].Got? && steps[1].n >= 0 ==> Active().None?)
      ensures if Answered(response, size, OP_READ, IO_ERROR) || Ended(response, size) then Active().None?
              else if data == [] then Active() == old(Active())
              else
                && old(Active()).Some?
                && var was := old(Active()).value;
                   Active() == Some(was.(received := was.received + data))
    {
      data, steps := [], [];
      assert net.log + [] == net.log;
      if |request| != 4 {
        size := WriteError(OP_READ, BAD_REQUEST, response);
        return;
      }
      if socketFd < 0 {
        size := WriteError(OP_READ, NOT_CONNECTED, response);
        return;
      }
      if response.Length < READ_HEADER {
        return -1, data, steps;
      }
      if ReadU16(request, 1) > READ_WAIT_MAX {
        size := WriteError(OP_READ, BAD_REQUEST, response);
        return;
      }
      ReadRoomExactly(request[3], response.Length);
      size, data, steps := ReadStream(
        ReadU16(request, 1), PartSize(READ_HEADER, 255, request[3], response.Length), response);
    }

    /** The part of READ behind the checks: the wait, and then what came in. */
    method ReadStream(waitMs: nat, room: nat, response: array<byte>)
      returns (size: int, ghost data: seq<byte>, ghost steps: seq<NetEvent>)
      requires Valid() && socketFd >= 0 && room <= 255 && READ_HEADER + room <= response.Length
      modifies this`socketFd, net, response
      ensures Valid() && -1 <= size <= response.Length && net.log == old(net.log) + steps
      ensures ReadAnswer(steps, waitMs, data, room, response, size)
      ensures if room > 0 then Ended(response, size) && |steps| == 2 ==> old(socketFd) in net.finished
              else net.finished == old(net.finished) && (|steps| == 2 && steps[1].n >= 0 ==> Active().None?)
      ensures if Answered(response, size, OP_READ, IO_ERROR) || Ended(response, size) then Active().None?
              else if data == [] then Active() == old(Active())
              else
                var was := old(Active()).value;
                Active() == Some(was.(received := was.received + data))
    {
      data := [];
      var ready := net.Wait(socketFd, waitMs);
      steps := [Waited(ready, waitMs, net.errno)];
      if ready.PollError? {
        CloseConnection();
        size := WriteError(OP_READ, IO_ERROR, response);
        return;
      }
      response[0], response[1], response[2], response[3] := OP_READ + RESPONSE_BIT, OK, 0, 0;
      if ready.Nothing? {
        return READ_HEADER, data, steps;
      }
      ghost var was := Active().value;
      assert was.received + [] == was.received;
      ghost var got;
      size, data, got := Receive(room, waitMs, steps[0], response);
      steps := steps + [got];
    }

    /** The reply to READ that the network's answers lead to. */
    ghost predicate ReadAnswer(
        steps: seq<NetEvent>, ms: nat, data: seq<byte>, room: nat, response: array<byte>, size: int)
      requires READ_HEADER <= response.Length
      reads response
    {
      && Judge(steps, ms).Some? && (|steps| == 2 ==> steps[1].Got?)
      && match Judge(steps, ms).value
         case Fails => data == [] && Answered(response, size, OP_READ, IO_ERROR)
         case Ended =>
           data == [] && size == READ_HEADER && response[..4] == [OP_READ + RESPONSE_BIT, OK, READ_EOF, 0]
         case Idle => data == [] && size == READ_HEADER && response[..4] == [OP_READ + RESPONSE_BIT, OK, 0, 0]
         case Moved =>
           && data == steps[1].data && 0 < |data| <= room && |data| <= 255
           && size == READ_HEADER + |data| <= response.Length
           && response[..size] == [OP_READ + RESPONSE_BIT, OK, 0, |data|] + data
    }

    /** The part of READ behind a successful wait, with an empty reply already in place. */
    method Receive(room: nat, ghost ms: nat, ghost waited: NetEvent, response: array<byte>)
      returns (size: int, ghost data: seq<byte>, ghost got: NetEvent)
      requires Valid() && socketFd >= 0 && room <= 255 && READ_HEADER + room <= response.Length
      requires IsWait(waited, Ready, ms)
      requires response[..4] == [OP_READ + RESPONSE_BIT, OK, 0, 0]
      modifies this`socketFd, net, response
      ensures Valid() && net.log == old(net.log) + [got]
      ensures ReadAnswer([waited, got], ms, data, room, response, size)
      ensures net.finished == if got.n == 0 && room > 0 then old(net.finished) + {old(socketFd)} else old(net.finished)
      ensures got.n >= 0 && room == 0 ==> Active().None?
      ensures if Answered(response, size, OP_READ, IO_ERROR) || Ended(response, size) then Active().None?
              else
                var was := old(Active()).value;
                Active() == Some(was.(received := was.received + data))
    {
      data := [];
      ghost var was := Active().value;
      assert was.received + [] == was.received;
      assert forall k | 0 <= k < 4 :: response[k] == response[..4][k];
      var received, bytes := net.Recv(socketFd, room);
      got := Got(received, bytes, net.errno);
      if received == 0 {
        response[2] := READ_EOF;
        CloseConnection();
        return READ_HEADER, data, got;
      }
      if received < 0 {
        if net.errno == EAGAIN {
          return READ_HEADER, data, got;
        }
        CloseConnection();
        size := WriteError(OP_READ, IO_ERROR, response);
        return;
      }
      data := bytes;
      size := READ_HEADER + received;
      PutData(bytes, response);
    }

    method PutData(bytes: seq<byte>, response: array<byte>)
      requires |bytes| <= 255 && READ_HEADER + |bytes| <= response.Length
      requires response[..4] == [OP_READ + RESPONSE_BIT, OK, 0, 0]
      modifies response
      ensures response[..READ_HEADER + |bytes|] == [OP_READ + RESPONSE_BIT, OK, 0, |bytes|] + bytes
      ensures response[2] == 0
    {
      CopyInto(response, READ_HEADER, bytes);
      assert response[..4] == [OP_READ + RESPONSE_BIT, OK, 0, 0];
      assert response[READ_HEADER..READ_HEADER + |bytes|] == bytes;
      response[3] := |bytes|;
      assert response[..READ_HEADER] == [OP_READ + RESPONSE_BIT, OK, 0, |bytes|];
    }

    /** STATUS. */
    method HandleStatus(response: array<byte>) returns (size: int)
      requires Valid() && 2 <= response.Length
      modifies response
      ensures if response.Length < 3 then size == -1
              else size == 3 && response[..3] == [OP_STATUS + RESPONSE_BIT, OK, if Active().Some? then 1 else 0]
    {
      if response.Length < 3 {
        return -1;
      }
      response[0], response[1], response[2] := OP_STATUS + RESPONSE_BIT, OK, if socketFd >= 0 then 1 else 0;
      size := 3;
    }

    /** CAPABILITIES. */
    method HandleCapabilities(response: array<byte>) returns (size: int)
      requires 2 <= response.Length <= 255
      modifies response
      ensures if response.Length < 7 then size == -1
              else size == 7 && response[..7]
                   == [OP_CAPABILITIES + RESPONSE_BIT, OK, 1, 7, HOST_MAX, response.Length - READ_HEADER,
                       response.Length - 2]
    {
      if response.Length < 7 {
        return -1;
      }
      response[0], response[1], response[2], response[3] := OP_CAPABILITIES + RESPONSE_BIT, OK, 1, 7;
      response[4], response[5], response[6] := HOST_MAX, response.Length - READ_HEADER, response.Length - 2;
      size := 7;
    }

    /** handle_squid_tcp_request: after every request the sockets are the active stream or none; a CONNECT that fails
        leaves the stream as it was, and an I/O error, the end of the stream and CLOSE leave none. */
    method HandleRequest(request: seq<byte>, found: Option<seq<Address>>, response: array<byte>) returns (size: int)
      requires Valid() && response.Length <= 255
      modifies this`socketFd, net, response
      ensures Valid() && -1 <= size <= response.Length
      ensures request == [] || response.Length < 2 ==>
                size == -1 && socketFd == old(socketFd) && net.streams == old(net.streams)
      ensures size >= 0 ==> size >= 2 && request != [] && response[0] == request[0] % 0x80 + RESPONSE_BIT
      ensures size >= 2 && request[0] == OP_CONNECT ==>
                if response[1] == OK then Active() == Some(NewStream)
                else socketFd == old(socketFd) && net.streams == old(net.streams)
      ensures size >= 2 && response[1] == IO_ERROR ==> Active().None?
      ensures size >= 2 && request[0] == OP_READ && Ended(response, size) ==> Active().None?
      ensures size >= 2 && request[0] == OP_CLOSE && response[1] == OK ==> Active().None?
      ensures size >= 2 && (request[0] == OP_STATUS || request[0] == OP_CAPABILITIES || request[0] > OP_STATUS) ==>
                socketFd == old(socketFd) && net.streams == old(net.streams)
    {
      hide ConnectRequest, Allowed, WriteRequest, PartSize;
      if request == [] || response.Length < 2 {
        return -1;
      }
      var opcode := request[0];
      if opcode == OP_CONNECT {
        ghost var attempts;
        size, attempts := HandleConnect(request, found, response);
        assert response[..2][0] == response[0] && response[..2][1] == response[1];
        return;
      }
      if opcode == OP_WRITE {
        ghost var n, steps;
        size, n, steps := HandleWrite(request, response);
        assert size >= 2 ==> response[..size][0] == response[0] && response[..size][1] == response[1];
        return;
      }
      if opcode == OP_READ {
        ghost var data, steps;
        size, data, steps := HandleRead(request, response);
        assert size >= 2 ==> response[..size][0] == response[0] && response[..size][1] == response[1];
        return;
      }
      if opcode > OP_STATUS || |request| != 1 {
        size := WriteError(opcode % 0x80, BAD_REQUEST, response);
      } else if opcode == OP_CAPABILITIES {
        size := HandleCapabilities(response);
        assert size >= 2 ==> response[..size][0] == response[0] && response[..size][1] == response[1];
        return;
      } else if opcode == OP_CLOSE {
        CloseConnection();
        size := WriteError(OP_CLOSE, OK, response);
      } else {
        size := HandleStatus(response);
        assert size >= 2 ==> response[..size][0] == response[0] && response[..size][1] == response[1];
        return;
      }
      assert response[..2][0] == response[0] && response[..2][1] == response[1];
    }

    /** A reply of two bytes. */
    ghost predicate Answered(response: array<byte>, size: int, opcode: byte, status: byte)
      requires 2 <= response.Length && opcode < 0x80
      reads response
    {
      size == 2 && response[..2] == [opcode + RESPONSE_BIT, status]
    }

    ghost predicate Ended(response: array<byte>, size: int)
      requires 2 <= response.Length
      reads response
    {
      size == READ_HEADER <= response.Length && response[1] == OK && response[2] == READ_EOF
    }
  }

  /** They can differ: the wait for the only address runs out, and closing its socket leaves another errno. The client
      is told that the connection failed, not that it timed out. */
  lemma MissedTimeout(ms: nat)
    ensures var last := Waited(Nothing, ms, OtherError);
            var attempt := [Opened(true, OtherError), Called(true, OtherError), Called(false, EINPROGRESS), last];
            && TcpContext.Tried([attempt], [Inet], false, ms)
            && TcpContext.LastBlamed([attempt], ETIMEDOUT, OtherError)
            && FailureStatus(Reason(last)) == TIMEOUT && FailureStatus(OtherError) == CONNECT_FAILED
  {
    var last := Waited(Nothing, ms, OtherError);
    var attempt := [Opened(true, OtherError), Called(true, OtherError), Called(false, EINPROGRESS), last];
    assert attempt[3] == last && [attempt][0] == attempt;
    TimeoutExactly(last, ETIMEDOUT, OtherError);
  }

  function Flat(parts: seq<seq<NetEvent>>): seq<NetEvent>
  {
    if parts == [] then [] else Flat(parts[..|parts| - 1]) + parts[|parts| - 1]
  }

  lemma FlatSnoc(log: seq<NetEvent>, parts: seq<seq<NetEvent>>, last: seq<NetEvent>)
    ensures log + Flat(parts + [last]) == (log + Flat(parts)) + last
  {
    assert (parts + [last])[..|parts|] == parts;
  }

  lemma GoodIsSome(host: seq<byte>)
    requires GoodHost(host)
    ensures host != []
  {
  }
}
