/**
  The UDP driver: descriptor parsing (ID:udp:SERVER:PORT), construction,
  connection, idempotent disconnection and the exact-length send and receive
  loops. Socket calls are replaced by the sequence of results they return.
*/
module UdpDataStream {
  import opened Wrappers
  import opened CInt
  import Text
  import opened DataStream

  /** A UDP stream: the generic part, the socket (-1 when closed) and the parsed server and port. */
  datatype UdpStream = UdpStream(parent: Stream, sock: int, server: Option<string>, port: Option<string>)

  /** The socket value meaning "no socket". */
  const NoSocket: int := -1

  /** The five operations the UDP driver binds. */
  function UdpMethods(): Methods {
    Methods(FnPtr(Udp, DestroyOp), FnPtr(Udp, ConnectOp), FnPtr(Udp, DisconnectOp), FnPtr(Udp, SendOp), FnPtr(Udp, RecvOp))
  }

  /** The tokens of a well-formed UDP descriptor: id, the word udp, server, port, anything after. */
  predicate IsUdpDescriptor(toks: seq<string>) {
    |toks| >= 4 && toks[1] == "udp"
  }

  function NotUdp(desc: string): string {
    "Stream descriptor '" + desc + "' is not a udp stream"
  }

  function NoServer(desc: string): string {
    "Can't parse server in '" + desc + "'"
  }

  function NoPort(desc: string): string {
    "Can't parse port in '" + desc + "'"
  }

  function Failing(u: UdpStream, why: string): UdpStream {
    u.(parent := SetStatus(u.parent, Error, why))
  }

  /**
    parse: reads the id (discarded), the protocol, the server and the port
    with strtok_r. A failure sets Error and touches neither the socket, the
    port, the operations nor the id; a success changes only server and port.
    What it reads is stated in terms of the tokens by `ParseReadsTokens`.
  */
  function Parse(u: UdpStream, desc: string): (r: (bool, UdpStream))
    ensures r.0 ==> r.1.parent == u.parent && r.1.sock == u.sock && r.1.server.Some? && r.1.port.Some?
    ensures !r.0 ==> r.1.parent.status == Error && r.1.sock == u.sock && r.1.port == u.port
    ensures !r.0 ==> r.1.parent.methods == u.parent.methods && r.1.parent.id == u.parent.id
  {
    match Text.StrtokR(desc, 0)
    case None => (false, Failing(u, CantParse(desc)))
    case Some(id) =>
      match Text.StrtokR(desc, id.rest)
      case None => (false, Failing(u, CantParse(desc)))
      case Some(proto) =>
        if proto.token != "udp" then (false, Failing(u, NotUdp(desc)))
        else
          match Text.StrtokR(desc, proto.rest)
          case None => (false, Failing(u, NoServer(desc)))
          case Some(server) =>
            var withServer := u.(server := Some(server.token));
            match Text.StrtokR(desc, server.rest)
            case None => (false, Failing(withServer, NoPort(desc)))
            case Some(port) => (true, withServer.(port := Some(port.token)))
  }

  /**
    Success exactly for a well-formed UDP descriptor, with server and port
    set from the third and fourth tokens; every failure names the missing
    part, and the server is stored before the port is looked for.
  */
  lemma ParseReadsTokens(u: UdpStream, desc: string)
    ensures var t := Text.Tokens(desc); var r := Parse(u, desc);
      && (r.0 <==> IsUdpDescriptor(t))
      && (r.0 ==> r.1 == u.(server := Some(t[2]), port := Some(t[3])))
      && (|t| < 2 ==> r.1 == Failing(u, CantParse(desc)))
      && (|t| >= 2 && t[1] != "udp" ==> r.1 == Failing(u, NotUdp(desc)))
      && (|t| == 2 && t[1] == "udp" ==> r.1 == Failing(u, NoServer(desc)))
      && (|t| == 3 && t[1] == "udp" ==> r.1 == Failing(u.(server := Some(t[2])), NoPort(desc)))
  {
    var t := Text.Tokens(desc);
    assert desc[0..] == desc;
    Text.StrtokRNext(desc, 0, t);
    if Text.StrtokR(desc, 0).Some? {
      var id := Text.StrtokR(desc, 0).value;
      Text.StrtokRNext(desc, id.rest, t[1..]);
      if Text.StrtokR(desc, id.rest).Some? {
        var proto := Text.StrtokR(desc, id.rest).value;
        assert t[1..][1..] == t[2..];
        Text.StrtokRNext(desc, proto.rest, t[2..]);
        if Text.StrtokR(desc, proto.rest).Some? {
          var server := Text.StrtokR(desc, proto.rest).value;
          assert t[2..][1..] == t[3..];
          Text.StrtokRNext(desc, server.rest, t[3..]);
        }
      }
    }
  }

  /**
    new: init with the UDP operations, then parse. Absent when init fails (no
    colon) or parse fails; otherwise a stream with no socket, in Unknown,
    whose id is the text before the first colon.
  */
  function New(desc: string): (r: Option<UdpStream>)
    ensures r.Some? <==> IsUdpDescriptor(Text.Tokens(desc))
    ensures r.Some? ==> var t := Text.Tokens(desc);
      && r.value.sock == NoSocket
      && r.value.parent.status == Unknown && r.value.parent.statusDesc == UnknownText
      && r.value.parent.methods == UdpMethods() && r.value.parent.descriptor == desc
      && r.value.parent.id == Some(Text.Split(desc)[0])
      && r.value.server == Some(t[2]) && r.value.port == Some(t[3])
  {
    Text.TwoTokensNeedColon(desc);
    ParseReadsTokens(UdpStream(Init(desc, UdpMethods().destroy, UdpMethods().connect, UdpMethods().disconnect,
      UdpMethods().send, UdpMethods().recv), NoSocket, None, None), desc);
    var m := UdpMethods();
    var p := Init(desc, m.destroy, m.connect, m.disconnect, m.send, m.recv);
    if p.status == Error then None
    else
      var parsed := Parse(UdpStream(p, NoSocket, None, None), desc);
      if parsed.0 then Some(parsed.1) else None
  }

  /** disconnect: closes an open socket and returns to Unknown; does nothing when there is no socket. */
  function Disconnect(u: UdpStream): (r: (seq<Effect>, UdpStream))
    ensures r.1.sock == NoSocket
    ensures u.sock == NoSocket ==> r == ([], u)
    ensures u.sock != NoSocket ==>
      && r.0 == [Close(u.sock)]
      && r.1.parent == SetStatus(u.parent, Unknown, UnknownText)
      && r.1.server == u.server && r.1.port == u.port
  {
    if u.sock != NoSocket then
      ([Close(u.sock)], u.(sock := NoSocket, parent := SetStatus(u.parent, Unknown, UnknownText)))
    else ([], u)
  }

  /** Disconnecting twice is disconnecting once: the second call closes nothing and changes nothing. */
  lemma DisconnectIdempotent(u: UdpStream)
    ensures Disconnect(Disconnect(u).1) == ([], Disconnect(u).1)
  {
  }

  // ---------------------------------------------------------------------------
  // connect

  /** What socket() returned for one resolved interface (-1 or a descriptor), and connect()'s failure text if it failed. */
  datatype SocketTry = SocketTry(fd: int, connectError: Option<string>)

  /** The outcome of address resolution: the failure text, or the interfaces to try in order. */
  datatype Resolution = Unresolved(reason: string) | Resolved(tries: seq<SocketTry>)

  predicate ValidTries(tries: seq<SocketTry>) {
    forall i :: 0 <= i < |tries| ==> tries[i].fd >= -1
  }

  /**
    The interface loop of connect: take sockets until one is not -1; a socket
    above 0 is connected, and a failed connect ends the whole attempt. The
    loop may also end on socket 0 (not connected) or with no socket at all.
  */
  function BindFirst(tries: seq<SocketTry>): (r: Result<int, string>)
    requires ValidTries(tries)
    ensures r.Ok? ==> r.value >= -1
    ensures r.Ok? && r.value > 0 ==> exists i :: 0 <= i < |tries| && tries[i] == SocketTry(r.value, None)
    ensures r.Err? ==> exists i :: 0 <= i < |tries| && tries[i].fd > 0 && tries[i].connectError == Some(r.error)
  {
    if tries == [] then Ok(NoSocket)
    else
      var t := tries[0];
      if t.fd > 0 then
        match t.connectError
        case Some(e) => Err(e)
        case None => Ok(t.fd)
      else if t.fd == NoSocket then
        var r := BindFirst(tries[1..]);
        assert forall i :: 0 <= i < |tries| - 1 ==> tries[1..][i] == tries[i + 1];
        r
      else Ok(t.fd)
  }

  /**
    The first try whose socket() did not return -1 decides the loop: socket 0
    ends it unconnected, a positive socket is either connected or fails the
    attempt with connect()'s error; when every try returned -1 there is no
    socket at all.
  */
  lemma {:induction false} BindFirstDecides(tries: seq<SocketTry>, i: nat)
    requires ValidTries(tries) && i <= |tries|
    requires forall j :: 0 <= j < i ==> tries[j].fd == NoSocket
    ensures i == |tries| ==> BindFirst(tries) == Ok(NoSocket)
    ensures i < |tries| && tries[i].fd == 0 ==> BindFirst(tries) == Ok(0)
    ensures i < |tries| && tries[i].fd > 0 && tries[i].connectError.None? ==> BindFirst(tries) == Ok(tries[i].fd)
    ensures i < |tries| && tries[i].fd > 0 && tries[i].connectError.Some? ==>
      BindFirst(tries) == Err(tries[i].connectError.value)
    decreases i
  {
    if i > 0 {
      var rest := tries[1..];
      assert forall j :: 0 <= j < |rest| ==> rest[j] == tries[j + 1];
      assert BindFirst(tries) == BindFirst(rest);
      BindFirstDecides(rest, i - 1);
    }
  }

  function AddressError(desc: string, reason: string): string {
    desc + ": Error getting address information: " + reason
  }

  /**
    connect: an open socket is disconnected first; then resolution and the
    interface loop decide. It returns 0 exactly when it leaves the stream in
    Error, and then holds no socket; it returns 1 with the stream Ready.
  */
  function Connect(u: UdpStream, res: Resolution): (r: (int, seq<Effect>, UdpStream))
    requires res.Resolved? ==> ValidTries(res.tries)
    ensures ConnectConforms(r.0, r.2.parent)
    ensures r.0 == 0 || r.0 == 1
    ensures r.0 == 0 ==> r.2.sock == NoSocket
    ensures r.1 == Disconnect(u).0
    ensures r.2.parent.id == u.parent.id && r.2.parent.descriptor == u.parent.descriptor
    ensures r.2.server == u.server && r.2.port == u.port
    ensures r.2.parent.methods == u.parent.methods
    ensures r.0 == 1 ==> r.2.parent.statusDesc == ReadyText
    ensures res.Unresolved? ==> r.0 == 0 && r.2.parent.statusDesc == AddressError(u.parent.descriptor, res.reason)
    ensures res.Resolved? ==> (r.0 == 1 <==> BindFirst(res.tries).Ok?)
    ensures res.Resolved? && BindFirst(res.tries).Ok? ==> r.2.sock == BindFirst(res.tries).value
    ensures res.Resolved? && BindFirst(res.tries).Err? ==> r.2.parent.statusDesc == BindFirst(res.tries).error
  {
    var (closing, v) := Disconnect(u);
    match res
    case Unresolved(reason) =>
      (0, closing, Failing(v, AddressError(v.parent.descriptor, reason)))
    case Resolved(tries) =>
      match BindFirst(tries)
      case Err(e) => (0, closing, Failing(v.(sock := NoSocket), e))
      case Ok(fd) => (1, closing, v.(sock := fd, parent := SetStatus(v.parent, Ready, ReadyText)))
  }

  /** When socket() fails on every interface, connect still reports success: Ready, with no socket. */
  lemma ConnectReadyWithoutSocket(u: UdpStream, tries: seq<SocketTry>)
    requires forall i :: 0 <= i < |tries| ==> tries[i].fd == NoSocket
    ensures Connect(u, Resolved(tries)).0 == 1
    ensures Connect(u, Resolved(tries)).2.parent.status == Ready
    ensures Connect(u, Resolved(tries)).2.sock == NoSocket
  {
    BindFirstDecides(tries, |tries|);
  }

  // ---------------------------------------------------------------------------
  // Exact-length transfer

  /** One result of send(): a count of bytes taken, or -1 with the error text. */
  datatype SendReply = Sent(count: nat) | SendFailed(reason: string)

  /**
    The replies a send loop of `tot` bytes consumes: it ends once the counts
    reach `tot` or at the first failure. Each count is positive and at most
    what was asked: a zero count would make the loop repeat forever, and no
    socket takes more than it is offered.
  */
  predicate SendCompletes(tot: nat, replies: seq<SendReply>)
    decreases |replies|
  {
    tot == 0 ||
      (replies != [] &&
        match replies[0]
        case SendFailed(_) => true
        case Sent(n) => 0 < n <= tot && SendCompletes(tot - n, replies[1..]))
  }

  /** How a transfer ends: all bytes moved, or a failure after `moved` bytes. */
  datatype Progress = Complete | FailedAfter(moved: nat, reason: string)

  /** The reference outcome of a send loop over `tot` bytes. */
  function SendProgress(tot: nat, replies: seq<SendReply>): (p: Progress)
    requires SendCompletes(tot, replies)
    ensures p.FailedAfter? ==> p.moved < tot
    decreases |replies|
  {
    if tot == 0 then Complete
    else match replies[0]
      case SendFailed(e) => FailedAfter(0, e)
      case Sent(n) =>
        match SendProgress(tot - n, replies[1..])
        case Complete => Complete
        case FailedAfter(m, e) => FailedAfter(m + n, e)
  }

  /** Adds `n` earlier bytes to a transfer outcome. */
  function After(n: nat, p: Progress): Progress {
    match p
    case Complete => Complete
    case FailedAfter(m, e) => FailedAfter(m + n, e)
  }

  function SendError(reason: string): string {
    "Error sending data: " + reason
  }

  /**
    send: only a Ready stream sends. The loop hands the socket the unsent
    remainder until every byte has gone, then returns the full size; the
    first failure disconnects the stream, sets Error and returns a negative
    value. `wire` is what the socket accepted.
  */
  method Send(u: UdpStream, data: seq<Byte>, replies: seq<SendReply>)
    returns (r: int, wire: seq<Byte>, effects: seq<Effect>, u': UdpStream)
    requires |data| <= SsizeMax
    requires u.parent.status == Ready ==> SendCompletes(|data|, replies)
    ensures TransferConforms(r, |data|)
    ensures u.parent.status != Ready ==> r == -1 && wire == [] && effects == [] && u' == u
    ensures u.parent.status == Ready ==> (r == |data| <==> SendProgress(|data|, replies).Complete?)
    ensures r >= 0 ==> r == |data| && wire == data && effects == [] && u' == u
    ensures u.parent.status == Ready && r < 0 ==>
      var p := SendProgress(|data|, replies);
      && p.FailedAfter?
      && wire == data[..p.moved]
      && effects == Disconnect(u).0
      && u'.sock == NoSocket
      && u'.parent == SetStatus(u.parent, Error, SendError(p.reason))
      && u'.server == u.server && u'.port == u.port
  {
    if u.parent.status != Ready {
      return -1, [], [], u;
    }
    var off := 0;
    var k := 0;
    while off < |data|
      invariant 0 <= off <= |data| && 0 <= k <= |replies|
      invariant SendCompletes(|data| - off, replies[k..])
      invariant SendProgress(|data|, replies) == After(off, SendProgress(|data| - off, replies[k..]))
      decreases |data| - off
    {
      assert replies[k..][1..] == replies[k + 1..];
      match replies[k]
      case SendFailed(e) =>
        var (closing, v) := Disconnect(u);
        return -1, data[..off], closing, Failing(v, SendError(e));
      case Sent(n) =>
        off := off + n;
        k := k + 1;
    }
    assert data[..off] == data;
    return |data|, data, [], u;
  }

  /** One result of recv(): the bytes that arrived (none on orderly close), or -1 with the error text. */
  datatype RecvReply = Arrived(bytes: seq<Byte>) | RecvFailed(reason: string)

  /** The replies a receive loop of `tot` bytes consumes: it ends when `tot` bytes arrived, on close or on failure. */
  predicate RecvCompletes(tot: nat, replies: seq<RecvReply>)
    decreases |replies|
  {
    tot == 0 ||
      (replies != [] &&
        match replies[0]
        case RecvFailed(_) => true
        case Arrived(b) => |b| <= tot && (b == [] || RecvCompletes(tot - |b|, replies[1..])))
  }

  /** How a receive loop ends: a full frame, the peer's orderly close, or a failure. */
  datatype Reception = Frame(bytes: seq<Byte>) | PeerClosed | Broken(reason: string)

  /** The reference outcome of a receive loop over `tot` bytes. */
  function Gather(tot: nat, replies: seq<RecvReply>): (g: Reception)
    requires RecvCompletes(tot, replies)
    ensures g.Frame? ==> |g.bytes| == tot
    decreases |replies|
  {
    if tot == 0 then Frame([])
    else match replies[0]
      case RecvFailed(e) => Broken(e)
      case Arrived(b) =>
        if b == [] then PeerClosed
        else match Gather(tot - |b|, replies[1..])
          case Frame(rest) => Frame(b + rest)
          case other => other
  }

  function RecvError(reason: string): string {
    "Error receiving data: " + reason
  }

  /**
    The receive loop: asks the socket for the missing bytes until `tot`
    have arrived, stopping at an orderly close or a failure. It computes
    exactly the reference outcome.
  */
  method ReceiveAll(tot: nat, replies: seq<RecvReply>) returns (g: Reception)
    requires RecvCompletes(tot, replies)
    ensures g == Gather(tot, replies)
  {
    var buf := [];
    var k := 0;
    while |buf| < tot
      invariant |buf| <= tot && 0 <= k <= |replies|
      invariant RecvCompletes(tot - |buf|, replies[k..])
      invariant Gather(tot, replies) == Prepend(buf, Gather(tot - |buf|, replies[k..]))
      decreases tot - |buf|
    {
      var rest := replies[k..];
      assert rest[0] == replies[k] && rest[1..] == replies[k + 1..];
      match replies[k]
      case RecvFailed(e) =>
        assert Gather(tot - |buf|, rest) == Broken(e);
        return Broken(e);
      case Arrived(b) =>
        if b == [] {
          assert Gather(tot - |buf|, rest) == PeerClosed;
          return PeerClosed;
        }
        GatherArrived(tot - |buf|, rest);
        PrependTwice(buf, b, Gather(tot - |buf| - |b|, replies[k + 1..]));
        buf := buf + b;
        k := k + 1;
    }
    assert buf + [] == buf;
    return Frame(buf);
  }

  /**
    recv: only a Ready stream receives. It returns the full size once that
    many bytes arrived, 0 on orderly close with the stream untouched, and a
    negative value after a failure, which disconnects the stream and sets
    Error. A positive result is therefore always a complete frame. A size
    above SSIZE_MAX turns negative in the ssize_t byte counter, so nothing
    is received and the size itself, converted to ssize_t, is returned: a
    negative result with the stream still Ready.
  */
  method Recv(u: UdpStream, sz: nat, replies: seq<RecvReply>)
    returns (r: int, buf: seq<Byte>, effects: seq<Effect>, u': UdpStream)
    requires sz <= SizeMax
    requires u.parent.status == Ready && sz <= SsizeMax ==> RecvCompletes(sz, replies)
    ensures TransferConforms(r, sz)
    ensures u.parent.status != Ready ==> r == -1 && effects == [] && u' == u
    ensures r > 0 ==> r == sz
    ensures r >= 0 ==> effects == [] && u' == u
    ensures u.parent.status == Ready && sz > SsizeMax ==>
      r < 0 && r == ToSsizeT(sz) && buf == [] && effects == [] && u' == u
    ensures u.parent.status == Ready && sz <= SsizeMax ==>
      match Gather(sz, replies)
      case Frame(bytes) => r == sz && buf == bytes
      case PeerClosed => r == 0 && sz > 0
      case Broken(e) =>
        && r < 0
        && effects == Disconnect(u).0
        && u'.sock == NoSocket
        && u'.server == u.server && u'.port == u.port
        && u'.parent == SetStatus(u.parent, Error, RecvError(e))
  {
    if u.parent.status != Ready {
      return -1, [], [], u;
    }
    if sz > SsizeMax {
      return ToSsizeT(sz), [], [], u;
    }
    var g := ReceiveAll(sz, replies);
    match g
    case Frame(bytes) =>
      return sz, bytes, [], u;
    case PeerClosed =>
      return 0, [], [], u;
    case Broken(e) =>
      var (closing, v) := Disconnect(u);
      return -1, [], closing, Failing(v, RecvError(e));
  }

  /** A non-empty arrival is the front of whatever the rest of the loop gathers. */
  lemma GatherArrived(tot: nat, rs: seq<RecvReply>)
    requires tot > 0 && RecvCompletes(tot, rs)
    requires rs[0].Arrived? && rs[0].bytes != []
    ensures RecvCompletes(tot - |rs[0].bytes|, rs[1..])
    ensures Gather(tot, rs) == Prepend(rs[0].bytes, Gather(tot - |rs[0].bytes|, rs[1..]))
  {
  }

  lemma PrependTwice(a: seq<Byte>, b: seq<Byte>, g: Reception)
    ensures Prepend(a, Prepend(b, g)) == Prepend(a + b, g)
  {
    if g.Frame? {
      assert a + (b + g.bytes) == (a + b) + g.bytes;
    }
  }

  /** Puts earlier bytes in front of a complete frame; other outcomes are unchanged. */
  function Prepend(head: seq<Byte>, g: Reception): Reception {
    match g
    case Frame(rest) => Frame(head + rest)
    case other => other
  }

  /** destroy: the UDP disconnect (closing an open socket), then the generic string releases, then the block itself. */
  function Destroy(u: UdpStream): (trace: seq<Effect>)
    ensures |trace| > 0
    ensures u.sock != NoSocket ==> trace[0] == Close(u.sock)
    ensures u.sock == NoSocket ==> forall i :: 0 <= i < |trace| ==> !trace[i].Close?
    ensures trace[|trace| - 1] == ReleaseBlock
    ensures multiset(trace) == multiset(Disconnect(u).0) + StringReleases() + multiset{ReleaseBlock}
  {
    Disconnect(u).0 + DataStream.Destroy(u.parent)[1..] + [ReleaseBlock]
  }
}
