/**
  The generic data stream every transport driver specialises: its status
  state machine, the five bound driver operations, the identifier taken from
  the descriptor, and the generic init / set_status / destroy routines.
  Function pointers are modelled by naming the operation they point to.
*/
module DataStream {
  import opened Wrappers
  import Text

  /** The status of a stream; C numbers the values 0, 1 and 2 in this order. */
  datatype Status = Unknown | Ready | Error

  /** The integer C stores for a status. */
  function Code(s: Status): (n: nat)
    ensures n <= 2
    ensures n == 0 <==> s == Unknown
  {
    match s
    case Unknown => 0
    case Ready => 1
    case Error => 2
  }

  /** The status an integer code denotes, if any. */
  function FromCode(n: int): (r: Option<Status>)
    ensures r.Some? <==> 0 <= n <= 2
    ensures r.Some? ==> Code(r.value) == n
  {
    if n == 0 then Some(Unknown)
    else if n == 1 then Some(Ready)
    else if n == 2 then Some(Error)
    else None
  }

  /** Exactly three statuses exist: coding and decoding are inverse. */
  lemma CodeRoundTrip(s: Status, n: int)
    ensures FromCode(Code(s)) == Some(s)
    ensures FromCode(n).Some? ==> (FromCode(n).value == s <==> Code(s) == n)
  {
  }

  /** The transports with a driver in the code base. */
  datatype Transport = Tcp | Udp

  /** The five operations a driver supplies. */
  datatype Op = DestroyOp | ConnectOp | DisconnectOp | SendOp | RecvOp

  /** A function pointer, identified by the driver and operation it points to. */
  datatype FnPtr = FnPtr(transport: Transport, op: Op)

  /** The operation table bound into every stream. */
  datatype Methods = Methods(destroy: FnPtr, connect: FnPtr, disconnect: FnPtr, send: FnPtr, recv: FnPtr)

  /**
    A stream: its bound operations, its descriptor, its identifier (absent
    when init could not derive one), and its status with the description
    text ("unknown", "ready" or an error message).
  */
  datatype Stream = Stream(
    methods: Methods,
    descriptor: string,
    id: Option<string>,
    status: Status,
    statusDesc: string)

  const UnknownText: string := "unknown"
  const ReadyText: string := "ready"

  /** The message init and the drivers report for an unparsable descriptor. */
  function CantParse(desc: string): string {
    "Can't parse '" + desc + "'"
  }

  /** set_status: overwrites the status code and its description. */
  function SetStatus(s: Stream, status: Status, desc: string): (r: Stream)
    ensures r.status == status && r.statusDesc == desc
    ensures r.methods == s.methods && r.descriptor == s.descriptor && r.id == s.id
  {
    s.(status := status, statusDesc := desc)
  }

  /**
    init: binds the five operations and the descriptor, takes the identifier
    from the text before the first colon and starts in Unknown; without any
    colon the identifier is never set and the status is Error.
  */
  function Init(desc: string, destroy: FnPtr, connect: FnPtr, disconnect: FnPtr, send: FnPtr, recv: FnPtr): (r: Stream)
    ensures r.methods == Methods(destroy, connect, disconnect, send, recv)
    ensures r.descriptor == desc
    ensures r.status == Error <==> Text.Colon !in desc
    ensures Text.Colon !in desc ==> r.id.None? && r.statusDesc == CantParse(desc)
    ensures Text.Colon in desc ==>
      r.id == Some(Text.Split(desc)[0]) && r.status == Unknown && r.statusDesc == UnknownText
  {
    var bound := Stream(Methods(destroy, connect, disconnect, send, recv), desc, None, Unknown, "");
    match Text.FindChar(desc, Text.Colon)
    case None => SetStatus(bound, Error, CantParse(desc))
    case Some(i) => SetStatus(bound.(id := Some(desc[..i])), Unknown, UnknownText)
  }

  /** The identifier init derives is the descriptor's text up to its first colon, colon excluded. */
  lemma InitIdIsPrefix(desc: string, m: Methods)
    requires Text.Colon in desc
    ensures var r := Init(desc, m.destroy, m.connect, m.disconnect, m.send, m.recv);
      r.id.Some? && r.id.value + [Text.Colon] <= desc && Text.Colon !in r.id.value
  {
    var i := Text.FindChar(desc, Text.Colon).value;
    assert desc[..i] + [Text.Colon] == desc[..i + 1];
  }

  // ---------------------------------------------------------------------------
  // The identifier buffer init fills (see the Findings of README.md)

  const Nul: char := '\0'

  /** A heap block: each cell holds a character or was never written. */
  type Block = seq<Option<char>>

  /** malloc(n + 1) followed by strncpy(id, desc, n): n copied characters and one unwritten cell. */
  function CopyPrefix(desc: string, n: nat): (buf: Block)
    requires n <= |desc|
    ensures |buf| == n + 1
  {
    seq(n + 1, k requires 0 <= k <= n => if k < n then Some(desc[k]) else None)
  }

  datatype Write = Written(buf: Block) | OutOfBounds(index: nat, size: nat)

  /** Stores a NUL at `k`, unless `k` lies outside the block. */
  function PutNul(buf: Block, k: nat): (r: Write)
    ensures r.Written? <==> k < |buf|
  {
    if k < |buf| then Written(buf[k := Some(Nul)]) else OutOfBounds(k, |buf|)
  }

  /** The terminator store as written: one past the end of the n + 1 cell block. */
  function IdBufferAsWritten(desc: string, n: nat): Write
    requires n <= |desc|
  {
    PutNul(CopyPrefix(desc, n), n + 1)
  }

  /** The intended terminator store: right after the n copied characters. */
  function IdBuffer(desc: string, n: nat): Write
    requires n <= |desc|
  {
    PutNul(CopyPrefix(desc, n), n)
  }

  /** The C string a block holds; None when reading it reaches an unwritten cell or the block's end. */
  function CString(buf: Block): Option<string>
  {
    if buf == [] then None
    else match buf[0]
      case None => None
      case Some(c) =>
        if c == Nul then Some([])
        else match CString(buf[1..])
          case None => None
          case Some(t) => Some([c] + t)
  }

  /** The cells holding the characters of `s`. */
  function Lift(s: string): (b: Block)
    ensures |b| == |s|
  {
    seq(|s|, k requires 0 <= k < |s| => Some(s[k]))
  }

  lemma {:induction false} CStringReadsLifted(s: string, last: Option<char>)
    requires Nul !in s
    ensures last == Some(Nul) ==> CString(Lift(s) + [last]) == Some(s)
    ensures last == None ==> CString(Lift(s) + [last]) == None
    decreases |s|
  {
    if s != [] {
      var buf := Lift(s) + [last];
      assert buf[0] == Some(s[0]);
      assert buf[1..] == Lift(s[1..]) + [last];
      CStringReadsLifted(s[1..], last);
      assert s == [s[0]] + s[1..];
    }
  }

  /**
    As written, the terminator goes to index n + 1 of a block of n + 1 cells,
    outside it, and cell n is never written: reading the identifier runs into
    an unwritten cell.
  */
  lemma IdTerminatorOutOfBounds(desc: string, n: nat)
    requires n <= |desc| && Nul !in desc[..n]
    ensures IdBufferAsWritten(desc, n) == OutOfBounds(n + 1, n + 1)
    ensures CString(CopyPrefix(desc, n)) == None
  {
    assert CopyPrefix(desc, n) == Lift(desc[..n]) + [None];
    CStringReadsLifted(desc[..n], None);
  }

  /** With the terminator at index n the block holds exactly the prefix init uses as identifier. */
  lemma IdBufferHoldsPrefix(desc: string, n: nat)
    requires n <= |desc| && Nul !in desc[..n]
    ensures IdBuffer(desc, n).Written?
    ensures CString(IdBuffer(desc, n).buf) == Some(desc[..n])
  {
    assert IdBuffer(desc, n).buf == Lift(desc[..n]) + [Some(Nul)];
    CStringReadsLifted(desc[..n], Some(Nul));
  }

  // ---------------------------------------------------------------------------
  // Teardown and the driver contract

  /** The strings a stream owns. */
  datatype Field = StatusDescText | DescriptorText | IdText

  /** An observable step of teardown or transport I/O. */
  datatype Effect = Invoke(fn: FnPtr) | Close(fd: int) | Release(field: Field) | ReleaseBlock

  /** The three string releases generic teardown performs, in any order. */
  function StringReleases(): multiset<Effect> {
    multiset{Release(StatusDescText), Release(DescriptorText), Release(IdText)}
  }

  /** destroy: the stream's own disconnect runs first, then each owned string is released once. */
  function Destroy(s: Stream): (trace: seq<Effect>)
    ensures trace != [] && trace[0] == Invoke(s.methods.disconnect)
    ensures multiset(trace[1..]) == StringReleases()
  {
    [Invoke(s.methods.disconnect), Release(StatusDescText), Release(DescriptorText), Release(IdText)]
  }

  /** connect() returns 0 exactly on error and leaves the stream Ready otherwise. */
  predicate ConnectConforms(r: int, after: Stream) {
    && (r == 0 <==> after.status == Error)
    && (r != 0 ==> after.status == Ready)
  }

  /** send() and recv() return the count of bytes moved, or a negative value on error. */
  predicate TransferConforms(r: int, sz: nat) {
    r < 0 || r <= sz
  }
}
