/**
  The dispatcher: the registry of streams (a sequence whose first element is
  the head of the C linked list), stream registration from a descriptor, the
  broadcast fan-out, the per-stream receiver loop as a trace, the shared
  active-receiver counter that drives shutdown, and teardown. Threads,
  mutexes and the start gate are not modelled; the outcomes of the TCP
  driver's connect and of thread creation are inputs.
*/
module Dispatcher {
  import opened Wrappers
  import opened CInt
  import Text
  import opened DataStream

  /** The dispatcher state: the registry, its counted size, the message length and the start flag. */
  datatype Dispatcher = Dispatcher(streams: seq<Stream>, streamNum: nat, msgLen: nat, started: bool)

  /** The counter agrees with the registry, the length fits a size_t, and every registered stream has an id. */
  predicate Wf(d: Dispatcher) {
    && d.streamNum == |d.streams|
    && d.msgLen <= SizeMax
    && forall i :: 0 <= i < |d.streams| ==> d.streams[i].id.Some?
  }

  /** new: an empty registry, no message length, not started. */
  function New(): (d: Dispatcher)
    ensures Wf(d)
    ensures d.streams == [] && d.msgLen == 0 && !d.started
  {
    Dispatcher([], 0, 0, false)
  }

  /** No two registered streams share an id. */
  predicate UniqueIds(streams: seq<Stream>) {
    forall i, j :: 0 <= i < j < |streams| && streams[i].id.Some? ==> streams[i].id != streams[j].id
  }

  /** The first registered stream (in list order) whose id is `tok`. */
  function FindId(streams: seq<Stream>, tok: string): (r: Option<nat>)
    ensures r.None? <==> forall i :: 0 <= i < |streams| ==> streams[i].id != Some(tok)
    ensures r.Some? ==> r.value < |streams| && streams[r.value].id == Some(tok)
    ensures r.Some? ==> forall i :: 0 <= i < r.value ==> streams[i].id != Some(tok)
  {
    if streams == [] then None
    else if streams[0].id == Some(tok) then Some(0)
    else match FindId(streams[1..], tok)
      case None =>
        assert forall i :: 1 <= i < |streams| ==> streams[i] == streams[1..][i - 1];
        None
      case Some(k) =>
        assert forall i :: 1 <= i <= k ==> streams[i] == streams[1..][i - 1];
        Some(k + 1)
  }

  // ---------------------------------------------------------------------------
  // Registration

  /** The five operations the TCP driver binds. */
  function TcpMethods(): Methods {
    Methods(FnPtr(Tcp, DestroyOp), FnPtr(Tcp, ConnectOp), FnPtr(Tcp, DisconnectOp), FnPtr(Tcp, SendOp), FnPtr(Tcp, RecvOp))
  }

  /** The TCP constructor, whose body is not part of this model, beyond its obligation to call init. */
  function TcpNew(desc: string): Stream {
    var m := TcpMethods();
    Init(desc, m.destroy, m.connect, m.disconnect, m.send, m.recv)
  }

  /** What the environment decides during registration: connect's failure text, and whether the thread starts. */
  datatype DriverOutcome = DriverOutcome(connectError: Option<string>, spawnOk: bool)

  /** Why a registration was refused. */
  datatype AddError =
    | Unparsable
    | DuplicateId(id: string, holder: string)
    | UnknownType(kind: string)
    | BluetoothUnsupported
    | ConnectFailed(detail: string)
    | SpawnFailed

  /** The registration a descriptor is entitled to: two tokens, a fresh first token, type tcp, connect and thread both succeed. */
  predicate Accepts(d: Dispatcher, s: string, drv: DriverOutcome) {
    var t := Text.Tokens(s);
    && |t| >= 2
    && FindId(d.streams, t[0]).None?
    && t[1] == "tcp"
    && drv.connectError.None?
    && drv.spawnOk
  }

  /**
    stream_add: the first strtok_r token is the id, checked against every
    registered id before the second token, the type, is read. Only tcp
    builds a stream; it must connect and get its thread. The new stream then
    becomes the head of the registry. Any refusal leaves the dispatcher as it
    was.
  */
  function StreamAdd(d: Dispatcher, s: string, drv: DriverOutcome, withBt: bool): (r: (Outcome<AddError>, Dispatcher))
    ensures r.0.Fail? ==> r.1 == d
    ensures r.0.Pass? ==>
      && |r.1.streams| == |d.streams| + 1
      && r.1.streams[1..] == d.streams
      && r.1.streamNum == d.streamNum + 1
      && r.1.msgLen == d.msgLen && r.1.started == d.started
    ensures r.0.Pass? ==>
      var n := r.1.streams[0];
      && n.descriptor == s && n.methods == TcpMethods()
      && n.status == Ready
      && n.id == Some(Text.Split(s)[0])
  {
    assert s[0..] == s;
    Text.StrtokRYieldsTokens(s, 0);
    Text.TwoTokensNeedColon(s);
    match Text.StrtokR(s, 0)
    case None => (Fail(Unparsable), d)
    case Some(first) =>
      match FindId(d.streams, first.token)
      case Some(i) => (Fail(DuplicateId(first.token, d.streams[i].descriptor)), d)
      case None =>
        Text.StrtokRYieldsTokens(s, first.rest);
        match Text.StrtokR(s, first.rest)
        case None => (Fail(Unparsable), d)
        case Some(kind) =>
          if kind.token != "tcp" then
            (Fail(if withBt && kind.token == "bt" then BluetoothUnsupported else UnknownType(kind.token)), d)
          else
            var stream := TcpNew(s);
            match drv.connectError
            case Some(e) => (Fail(ConnectFailed(e)), d)
            case None =>
              if !drv.spawnOk then (Fail(SpawnFailed), d)
              else
                var ready := SetStatus(stream, Ready, ReadyText);
                (Pass, d.(streams := [ready] + d.streams, streamNum := d.streamNum + 1))
  }

  /** The strtok_r reads of stream_add, in terms of the descriptor's tokens. */
  lemma StreamAddReads(s: string)
    ensures Text.StrtokR(s, 0).None? <==> Text.Tokens(s) == []
    ensures Text.StrtokR(s, 0).Some? ==>
      var first := Text.StrtokR(s, 0).value;
      && first.token == Text.Tokens(s)[0]
      && (Text.StrtokR(s, first.rest).None? <==> |Text.Tokens(s)| == 1)
      && (Text.StrtokR(s, first.rest).Some? ==> Text.StrtokR(s, first.rest).value.token == Text.Tokens(s)[1])
  {
    assert s[0..] == s;
    Text.StrtokRYieldsTokens(s, 0);
    if Text.StrtokR(s, 0).Some? {
      Text.StrtokRYieldsTokens(s, Text.StrtokR(s, 0).value.rest);
    }
  }

  /** A registration succeeds exactly when the descriptor is entitled to it. */
  lemma StreamAddSucceedsIff(d: Dispatcher, s: string, drv: DriverOutcome, withBt: bool)
    ensures StreamAdd(d, s, drv, withBt).0.Pass? <==> Accepts(d, s, drv)
  {
    StreamAddReads(s);
  }

  /**
    A refused registration names the first check that failed, in the order
    stream_add makes them: no token, duplicate id (with the descriptor that
    holds it), no type, unsupported type, connect failure, thread failure.
  */
  lemma StreamAddRefusals(d: Dispatcher, s: string, drv: DriverOutcome, withBt: bool)
    ensures var t := Text.Tokens(s); var r := StreamAdd(d, s, drv, withBt);
      && (t == [] ==> r.0 == Fail(Unparsable))
      && (t != [] && FindId(d.streams, t[0]).Some? ==>
            r.0 == Fail(DuplicateId(t[0], d.streams[FindId(d.streams, t[0]).value].descriptor)))
      && (|t| == 1 && FindId(d.streams, t[0]).None? ==> r.0 == Fail(Unparsable))
      && (|t| >= 2 && FindId(d.streams, t[0]).None? && t[1] != "tcp" ==>
            r.0 == Fail(if withBt && t[1] == "bt" then BluetoothUnsupported else UnknownType(t[1])))
      && (|t| >= 2 && FindId(d.streams, t[0]).None? && t[1] == "tcp" && drv.connectError.Some? ==>
            r.0 == Fail(ConnectFailed(drv.connectError.value)))
      && (|t| >= 2 && FindId(d.streams, t[0]).None? && t[1] == "tcp" && drv.connectError.None? && !drv.spawnOk ==>
            r.0 == Fail(SpawnFailed))
  {
    StreamAddReads(s);
  }

  /** Registration keeps the dispatcher well formed. */
  lemma StreamAddKeepsWf(d: Dispatcher, s: string, drv: DriverOutcome, withBt: bool)
    requires Wf(d)
    ensures Wf(StreamAdd(d, s, drv, withBt).1)
  {
    var r := StreamAdd(d, s, drv, withBt);
    if r.0.Pass? {
      forall i | 0 <= i < |r.1.streams| ensures r.1.streams[i].id.Some? {
        if i > 0 {
          assert r.1.streams[i] == d.streams[i - 1];
        }
      }
    }
  }

  /**
    A descriptor that does not start with a colon registers under its first
    token, which the duplicate check has just found unused: ids stay unique.
  */
  lemma StreamAddKeepsIdsUnique(d: Dispatcher, s: string, drv: DriverOutcome, withBt: bool)
    requires UniqueIds(d.streams)
    requires s == [] || s[0] != Text.Colon
    ensures UniqueIds(StreamAdd(d, s, drv, withBt).1.streams)
  {
    var r := StreamAdd(d, s, drv, withBt);
    if r.0.Pass? {
      var t := Text.Tokens(s);
      StreamAddSucceedsIff(d, s, drv, withBt);
      Text.FirstTokenVersusPrefix(s);
      var n := r.1.streams[0];
      assert n.id == Some(t[0]);
      forall i, j | 0 <= i < j < |r.1.streams| && r.1.streams[i].id.Some?
        ensures r.1.streams[i].id != r.1.streams[j].id
      {
        assert r.1.streams[j] == d.streams[j - 1];
        if i > 0 {
          assert r.1.streams[i] == d.streams[i - 1];
        }
      }
    }
  }

  /**
    A descriptor with a leading colon is checked under its first token but
    registered under the empty prefix before that colon, so a second such
    descriptor is accepted although its id is already in use.
  */
  lemma LeadingColonDuplicatesId(d: Dispatcher, s: string, drv: DriverOutcome, withBt: bool)
    requires s != [] && s[0] == Text.Colon
    requires Accepts(d, s, drv)
    requires exists i :: 0 <= i < |d.streams| && d.streams[i].id == Some([])
    ensures StreamAdd(d, s, drv, withBt).0.Pass?
    ensures StreamAdd(d, s, drv, withBt).1.streams[0].id == Some([])
    ensures !UniqueIds(StreamAdd(d, s, drv, withBt).1.streams)
  {
    StreamAddSucceedsIff(d, s, drv, withBt);
    Text.FirstTokenVersusPrefix(s);
    var after := StreamAdd(d, s, drv, withBt).1.streams;
    var i :| 0 <= i < |d.streams| && d.streams[i].id == Some([]);
    assert after[i + 1] == d.streams[i];
  }

  // ---------------------------------------------------------------------------
  // Broadcast

  /** One call of a destination's send: which stream, the bytes and the length passed. */
  datatype Delivery = Delivery(dest: nat, data: seq<Byte>, len: nat)

  /** What one broadcast does: the sends in order, and the destinations reported as short. */
  datatype Fanout = Fanout(sends: seq<Delivery>, shortfalls: seq<nat>)

  function Dests(ds: seq<Delivery>): (r: seq<nat>)
    ensures |r| == |ds|
    ensures forall k :: 0 <= k < |ds| ==> r[k] == ds[k].dest
  {
    if ds == [] then [] else [ds[0].dest] + Dests(ds[1..])
  }

  predicate Increasing(xs: seq<nat>) {
    forall a, b :: 0 <= a < b < |xs| ==> xs[a] < xs[b]
  }

  lemma ConsIncreasing(x: nat, xs: seq<nat>)
    requires Increasing(xs)
    requires forall y :: y in xs ==> x < y
    ensures Increasing([x] + xs)
  {
    forall a, b | 0 <= a < b < |[x] + xs| ensures ([x] + xs)[a] < ([x] + xs)[b] {
      assert ([x] + xs)[b] == xs[b - 1];
      assert xs[b - 1] in xs;
      if a > 0 {
        assert ([x] + xs)[a] == xs[a - 1];
      }
    }
  }

  /** A send result below the message length is a shortfall; a negative (error) result is one too. */
  predicate Short(sent: int, msgLen: nat) {
    sent < msgLen
  }

  /** The destinations of the fan-out loop from list position `i` on: every stream but the origin, in order. */
  function DestsFrom(n: nat, origin: nat, i: nat): (ds: seq<nat>)
    requires i <= n && origin < n
    ensures |ds| == if i <= origin then n - i - 1 else n - i
    ensures Increasing(ds)
    ensures forall j :: j in ds <==> i <= j < n && j != origin
    decreases n - i
  {
    if i == n then []
    else
      var rest := DestsFrom(n, origin, i + 1);
      if i == origin then rest
      else
        ConsIncreasing(i, rest);
        [i] + rest
  }

  /** The shortfall tests of the fan-out loop from list position `i` on; `replies[j]` is what stream j's send returns. */
  function ShortfallsFrom(n: nat, origin: nat, i: nat, msgLen: nat, replies: seq<int>): (sf: seq<nat>)
    requires i <= n && |replies| == n
    ensures Increasing(sf)
    ensures forall j :: j in sf <==> i <= j < n && j != origin && Short(replies[j], msgLen)
    decreases n - i
  {
    if i == n then []
    else
      var rest := ShortfallsFrom(n, origin, i + 1, msgLen, replies);
      if i != origin && Short(replies[i], msgLen) then
        ConsIncreasing(i, rest);
        [i] + rest
      else rest
  }

  /**
    broadcast: every registered stream except the origin (by position, i.e.
    by identity) is sent the unmodified message with the dispatcher's length,
    exactly once and in list order; every destination whose send fell short
    is reported, and a shortfall never stops the remaining sends.
  */
  function Broadcast(streams: seq<Stream>, origin: nat, msg: seq<Byte>, msgLen: nat, replies: seq<int>): (r: Fanout)
    requires origin < |streams| && |replies| == |streams| && |msg| == msgLen
    ensures |r.sends| == |streams| - 1
    ensures forall k :: 0 <= k < |r.sends| ==> r.sends[k] == Delivery(r.sends[k].dest, msg, |msg|)
    ensures Increasing(Dests(r.sends))
    ensures forall j :: j in Dests(r.sends) <==> 0 <= j < |streams| && j != origin
    ensures origin !in Dests(r.sends)
    ensures Increasing(r.shortfalls)
    ensures forall j :: j in r.shortfalls <==> 0 <= j < |streams| && j != origin && Short(replies[j], msgLen)
  {
    var dests := DestsFrom(|streams|, origin, 0);
    var sends := seq(|dests|, k requires 0 <= k < |dests| => Delivery(dests[k], msg, msgLen));
    assert Dests(sends) == dests;
    Fanout(sends, ShortfallsFrom(|streams|, origin, 0, msgLen, replies))
  }

  // ---------------------------------------------------------------------------
  // Broadcast as written (see the Findings of README.md)

  /**
    One evaluation of the shortfall test as written: the destination, the
    `sent` it read (None: never assigned), its verdict. The verdict on a
    never-assigned `sent` depends on whatever the variable happens to hold,
    so it is an input (`junk`).
  */
  datatype Check = Check(at: nat, read: Option<int>, reported: bool)

  /**
    The loop as written: `sent` is assigned only for destinations other than
    the origin, yet tested for every stream, and the test compares the
    signed count with the unsigned length, so the count is converted to
    size_t first.
  */
  function AsWrittenFrom(n: nat, origin: nat, i: nat, msgLen: nat, replies: seq<int>, junk: bool, sent: Option<int>): (r: seq<Check>)
    requires i <= n && |replies| == n
    ensures |r| == n - i
    ensures forall k :: 0 <= k < |r| ==> r[k].at == i + k
    ensures forall k :: 0 <= k < |r| && r[k].read.Some? ==> (r[k].reported <==> ToSizeT(r[k].read.value) < msgLen)
    decreases n - i
  {
    if i == n then []
    else
      var now := if i != origin then Some(replies[i]) else sent;
      var reported := if now.Some? then ToSizeT(now.value) < msgLen else junk;
      [Check(i, now, reported)] + AsWrittenFrom(n, origin, i + 1, msgLen, replies, junk, now)
  }

  function AsWrittenChecks(n: nat, origin: nat, msgLen: nat, replies: seq<int>, junk: bool): (r: seq<Check>)
    requires |replies| == n
    ensures |r| == n
  {
    AsWrittenFrom(n, origin, 0, msgLen, replies, junk, None)
  }

  /** When the origin heads the list, the first test reads `sent` before anything was stored in it, so its verdict is whatever that garbage gives. */
  lemma AsWrittenReadsUninitialised(n: nat, msgLen: nat, replies: seq<int>, junk: bool)
    requires n > 0 && |replies| == n
    ensures AsWrittenChecks(n, 0, msgLen, replies, junk)[0] == Check(0, None, junk)
  {
  }

  /**
    When the origin is not the head, its test re-reads the previous
    destination's count: a short send there is reported a second time, now
    against the origin, which was never sent anything.
  */
  lemma AsWrittenBlamesOrigin(n: nat, origin: nat, msgLen: nat, replies: seq<int>, junk: bool)
    requires 0 < origin < n && |replies| == n
    requires 0 <= replies[origin - 1] < msgLen
    ensures AsWrittenChecks(n, origin, msgLen, replies, junk)[origin] == Check(origin, Some(replies[origin - 1]), true)
  {
    AsWrittenStep(n, origin, msgLen, replies, junk, 0, None);
  }

  lemma {:induction false} AsWrittenStep(n: nat, origin: nat, msgLen: nat, replies: seq<int>, junk: bool, i: nat, sent: Option<int>)
    requires 0 < origin < n && |replies| == n && i < origin
    requires 0 <= replies[origin - 1] < msgLen
    ensures AsWrittenFrom(n, origin, i, msgLen, replies, junk, sent)[origin - i] == Check(origin, Some(replies[origin - 1]), true)
    decreases origin - i
  {
    if i < origin - 1 {
      AsWrittenStep(n, origin, msgLen, replies, junk, i + 1, Some(replies[i]));
    }
  }

  /** A failed send (-1) becomes SIZE_MAX in the test as written, so the failure is never reported; the corrected test reports it. */
  lemma AsWrittenMissesSendError(streams: seq<Stream>, origin: nat, msg: seq<Byte>, replies: seq<int>, junk: bool, j: nat)
    requires origin < |streams| && |replies| == |streams| && j < |streams| && j != origin
    requires |msg| <= SsizeMax
    requires LongMin <= replies[j] < 0
    ensures !AsWrittenChecks(|streams|, origin, |msg|, replies, junk)[j].reported
    ensures j in Broadcast(streams, origin, msg, |msg|, replies).shortfalls
  {
    AsWrittenAt(|streams|, origin, |msg|, replies, junk, 0, None, j);
  }

  lemma {:induction false} AsWrittenAt(n: nat, origin: nat, msgLen: nat, replies: seq<int>, junk: bool, i: nat, sent: Option<int>, j: nat)
    requires |replies| == n && i <= j < n && j != origin
    ensures AsWrittenFrom(n, origin, i, msgLen, replies, junk, sent)[j - i].read == Some(replies[j])
    decreases j - i
  {
    if i < j {
      var now := if i != origin then Some(replies[i]) else sent;
      AsWrittenAt(n, origin, msgLen, replies, junk, i + 1, now, j);
    }
  }

  // ---------------------------------------------------------------------------
  // The receiver loop

  /** Why a receiver left its loop: a receive result of 0 or less, or the stop flag. */
  datatype ExitReason = RecvEnded(result: int) | StopObserved

  /** A step of one receiver: joining the active count, broadcasting one received message, leaving the count. */
  datatype ThreadStep = Enter | Relay(result: int) | Leave(why: ExitReason)

  /** The number of leading positive receive results. */
  function Served(results: seq<int>): (k: nat)
    ensures k <= |results|
    ensures forall i :: 0 <= i < k ==> results[i] > 0
    ensures k < |results| ==> results[k] <= 0
  {
    if results == [] || results[0] <= 0 then 0
    else
      var k := 1 + Served(results[1..]);
      assert forall i :: 1 <= i < k ==> results[i] == results[1..][i - 1];
      k
  }

  /** The loop body over successive receive results; running out of results means the stop flag was seen. */
  function ReceiveLoop(results: seq<int>): (trace: seq<ThreadStep>)
    ensures |trace| == Served(results) + 1
    ensures forall k :: 0 <= k < Served(results) ==> trace[k] == Relay(results[k])
    ensures trace[|trace| - 1] ==
      if Served(results) < |results| then Leave(RecvEnded(results[Served(results)])) else Leave(StopObserved)
  {
    if results == [] then [Leave(StopObserved)]
    else if results[0] <= 0 then [Leave(RecvEnded(results[0]))]
    else
      var rest := ReceiveLoop(results[1..]);
      assert forall k :: 1 <= k < |results| ==> results[1..][k - 1] == results[k];
      [Relay(results[0])] + rest
  }

  /** The change one step makes to the active-receiver counter. */
  function CounterDelta(step: ThreadStep): int {
    match step
    case Enter => 1
    case Relay(_) => 0
    case Leave(_) => -1
  }

  function NetCount(trace: seq<ThreadStep>): int {
    if trace == [] then 0 else CounterDelta(trace[0]) + NetCount(trace[1..])
  }

  /**
    The receiver thread: it joins the active count, then broadcasts once per
    positive receive result, stops at the first result of 0 or less (or when
    the stop flag is seen), and leaves the count exactly once on either way
    out.
  */
  function Receiver(results: seq<int>): (trace: seq<ThreadStep>)
    ensures |trace| == Served(results) + 2
    ensures trace[0] == Enter
    ensures forall k :: 0 <= k < Served(results) ==> trace[k + 1] == Relay(results[k]) && results[k] > 0
    ensures trace[|trace| - 1] ==
      if Served(results) < |results| then Leave(RecvEnded(results[Served(results)])) else Leave(StopObserved)
  {
    [Enter] + ReceiveLoop(results)
  }

  /** Whatever the receive results, the thread leaves the counter as it found it: one increment, one decrement. */
  lemma {:induction false} ReceiverBalancesCounter(results: seq<int>)
    ensures NetCount(Receiver(results)) == 0
    ensures NetCount(ReceiveLoop(results)) == -1
    decreases |results|
  {
    var loop := ReceiveLoop(results);
    if results != [] && results[0] > 0 {
      ReceiverBalancesCounter(results[1..]);
      assert loop[1..] == ReceiveLoop(results[1..]);
    }
    assert Receiver(results)[1..] == loop;
    assert NetCount(Receiver(results)) == CounterDelta(Enter) + NetCount(loop);
  }

  // ---------------------------------------------------------------------------
  // The active-receiver counter across all threads

  /** One thread's update of the shared counter, in the order the updates took the lock. */
  datatype CounterEvent = Inc(thread: nat) | Dec(thread: nat)

  function Count(ev: seq<CounterEvent>): int
    decreases |ev|
  {
    if ev == [] then 0
    else Count(ev[..|ev| - 1]) + (if ev[|ev| - 1].Inc? then 1 else -1)
  }

  /** Threads that have incremented and not yet decremented. */
  function Live(ev: seq<CounterEvent>): set<nat>
    decreases |ev|
  {
    if ev == [] then {}
    else
      var before := Live(ev[..|ev| - 1]);
      match ev[|ev| - 1]
      case Inc(t) => before + {t}
      case Dec(t) => before - {t}
  }

  /** Threads that have incremented at all. */
  function Seen(ev: seq<CounterEvent>): set<nat>
    decreases |ev|
  {
    if ev == [] then {}
    else Seen(ev[..|ev| - 1]) + {ev[|ev| - 1].thread}
  }

  /** Each thread increments once, on start, and decrements at most once, afterwards: what every receiver does. */
  predicate WellNested(ev: seq<CounterEvent>)
    decreases |ev|
  {
    ev == [] ||
      (WellNested(ev[..|ev| - 1]) &&
        match ev[|ev| - 1]
        case Inc(t) => t !in Seen(ev[..|ev| - 1])
        case Dec(t) => t in Live(ev[..|ev| - 1]))
  }

  /** In every well-nested interleaving the shared counter equals the number of receivers still running. */
  lemma {:induction false} CountIsLive(ev: seq<CounterEvent>)
    requires WellNested(ev)
    ensures Count(ev) == |Live(ev)|
    ensures Live(ev) <= Seen(ev)
    decreases |ev|
  {
    if ev != [] {
      var init := ev[..|ev| - 1];
      CountIsLive(init);
      match ev[|ev| - 1]
      case Inc(t) =>
        assert t !in Live(init);
      case Dec(t) =>
        assert Live(ev) == Live(init) - {t};
    }
  }

  /** One poll of the control loop: it stops when termination was requested or the counter reads zero. */
  function PollStops(done: bool, active: int): bool {
    done || active == 0
  }

  /** Once every receiver that started has left, the counter reads zero and the next poll stops the relay without any signal. */
  lemma ShutdownConverges(ev: seq<CounterEvent>)
    requires WellNested(ev)
    requires forall t :: t in Seen(ev) ==> t !in Live(ev)
    ensures Count(ev) == 0
    ensures PollStops(false, Count(ev))
  {
    CountIsLive(ev);
    assert Live(ev) == {};
  }

  // ---------------------------------------------------------------------------
  // Teardown

  /** destroy: every registered stream's own destroy is called once, in list order. */
  function DestroyAll(streams: seq<Stream>): (calls: seq<FnPtr>)
    ensures |calls| == |streams|
    ensures forall i :: 0 <= i < |streams| ==> calls[i] == streams[i].methods.destroy
  {
    if streams == [] then []
    else
      var rest := DestroyAll(streams[1..]);
      assert forall i :: 1 <= i < |streams| ==> streams[1..][i - 1] == streams[i];
      [streams[0].methods.destroy] + rest
  }
}
