# Blabbermouth relay — a Dafny model of its sequential core

Blabbermouth connects to a set of point-to-point streams and relays every
fixed-size message received on one stream to all the others, unmodified.
This project models the decision logic of that relay, with threads and sockets
replaced by the values they produce, and proves properties of the model. It
covers five pieces:

- **The generic data stream** (`datastream.dfy`, module `DataStream`). This
  covers the status state machine (Unknown, Ready, Error), the table of five
  driver operations bound at init, and the identifier taken from the
  descriptor text before its first colon. It also covers `set_status` and
  generic `destroy`, and the stream contract that drivers follow: connect
  returns 0 exactly on error, and send and recv return a byte count or a
  negative value.
- **The UDP driver** (`udp_datastream.dfy`, module `UdpDataStream`):
  - the `ID:udp:SERVER:PORT` parser and the constructor;
  - connect, over the result of address resolution and of each socket try;
  - idempotent disconnect and destroy;
  - the exact-length send and receive loops. These loops run over the
    sequence of results the socket calls return. The send loop is a method
    whose loop invariant ties it to a recursive reference definition.
- **The dispatcher** (`dispatcher.dfy`, module `Dispatcher`):
  - stream registration: tokenising, the duplicate-id check, type dispatch,
    connect and thread outcomes, and insertion at the head;
  - the broadcast fan-out, and the broadcast loop as the C code writes it;
  - the receiver thread as a trace;
  - the shared active-receiver counter, across any interleaving of threads;
  - teardown.
- **The command line** (`cli.dfy`, module `Cli`): the whitespace trimming and
  comment skipping of the configuration file, the `-s` value check, and the
  outcome of `main` for any argument list.
- **Supporting definitions**:
  - `text.dfy` (module `Text`) holds `strchr`, `strtok_r` on `:`, the C-locale
    `isspace`, and `strtol`. `strtok_r` is modelled twice: as a cursor function
    that follows the C call (`Text.StrtokR`), and as "split on ':' and drop the
    empty pieces" (`Text.Tokens`). A lemma proves the two agree.
  - `cint.dfy` (module `CInt`) holds the LP64 integer widths: size_t
    conversion and the clamping of long.
  - `wrappers.dfy` holds `Option`, `Result` and `Outcome`.

The TCP driver's source is not part of this model. A TCP stream is built by
`init` with the TCP operation table; the header requires every constructor to
call `init`. Whether its connect succeeds, and whether its receiver thread
starts, are inputs (`Dispatcher.DriverOutcome`).

Some of the code's behaviour differs from what the program's own usage text
(src/main.c:12-43) and messages suggest, or is easy to misread. The model
follows the code:

- **A refused command-line descriptor is skipped** (src/main.c:156). The run
  continues (`Cli.RefusedDescriptorSkipped`). Only a refused line of a `-f`
  file stops the run.
- **`-s` accepts any numeral that `strtol` reads whole, negative ones
  included** (src/main.c:141-142), although the message at src/main.c:161 asks
  for a value above 0. `-s -1` stores SIZE_MAX (`Cli.ParseSizeMinusOne`).
  Only a final value of 0 is refused. With a size above SSIZE_MAX, every UDP
  receive returns a negative value at once and leaves the stream Ready
  (`UdpDataStream.Recv`).
- **`udp` is refused as a stream type by registration** (src/bm_dispatcher.c:177-199),
  even though the usage text lists it and a UDP driver exists.
- **Apart from the stop flag, a receiver leaves its loop only on a receive
  result of 0 or less** (src/bm_dispatcher.c:70-81). The loop also ends when
  the flag is seen between receives. Because the UDP driver either completes
  a frame or returns 0 or a negative value, a result of 0 or less is the same
  as "not a full frame".
- **A descriptor that starts with ':' can register a duplicate id.** The
  duplicate check compares the first `strtok_r` token, but the stored id is
  the text before the first colon, which is empty here. So a second such
  descriptor with a fresh first token is accepted under the same empty id
  (`Dispatcher.LeadingColonDuplicatesId`). Without a leading colon, ids stay
  unique (`Dispatcher.StreamAddKeepsIdsUnique`).

## Model

| member | source | states |
|---|---|---|
| DataStream.Code | src/bm_datastream.h:24-28 | Unknown is coded 0 and no status is coded above 2 |
| DataStream.FromCode | src/bm_datastream.h:24-28 | a code denotes a status exactly when it is 0, 1 or 2, and decoding inverts the coding |
| DataStream.SetStatus | src/bm_datastream.c:56-67 | set_status replaces both the status and its description and leaves the operations, descriptor and id alone |
| DataStream.Init | src/bm_datastream.c:10-41 | init binds exactly the five given operations and copies the descriptor. The stream is in Error, with a "Can't parse" message and no id, exactly when the descriptor has no colon. Otherwise its id is the text before the first colon and it starts Unknown with description "unknown" |
| DataStream.InitIdIsPrefix | src/bm_datastream.c:26-36 | the id init derives, followed by a colon, is a prefix of the descriptor, and the id holds no colon |
| DataStream.IdTerminatorOutOfBounds | src/bm_datastream.c:34-36 | as written, the terminator is stored one cell past the id block, and reading the id runs into a cell never written |
| DataStream.IdBufferHoldsPrefix | src/bm_datastream.c:34-36 | with the terminator stored right after the copied characters, the block holds exactly the prefix the model uses as id |
| DataStream.Destroy | src/bm_datastream.c:46-51 | generic destroy first invokes the stream's own disconnect, then releases each owned string once |
| UdpDataStream.Parse | src/bm_udp_datastream.c:26-86 | a failed parse sets Error and leaves the socket, the port, the operations and the id alone; a successful one changes only server and port, setting both |
| UdpDataStream.ParseReadsTokens | src/bm_udp_datastream.c:26-86 | parse succeeds exactly when the non-empty tokens are id, the word udp, server and port (further tokens ignored), and then sets server and port from the third and fourth tokens. Every failure carries the message for the missing part. The server is kept when only the port is missing |
| UdpDataStream.New | src/bm_udp_datastream.c:226-249 | new yields a stream exactly for a well-formed UDP descriptor. The result has no socket, status Unknown, the UDP operations, the prefix id, and the parsed server and port |
| UdpDataStream.Disconnect | src/bm_udp_datastream.c:154-163 | disconnect closes an open socket and returns the stream to Unknown. Without a socket it does nothing |
| UdpDataStream.DisconnectIdempotent | src/bm_udp_datastream.c:154-163 | a second disconnect closes nothing and changes nothing |
| UdpDataStream.BindFirst | src/bm_udp_datastream.c:125-145 | the interface loop yields a socket of -1 or more; a positive socket comes from a try that connected, and an error from a positive try whose connect failed |
| UdpDataStream.BindFirstDecides | src/bm_udp_datastream.c:125-145 | the first try whose socket is not -1 decides the loop: socket 0 gives 0 unconnected, a positive socket gives that socket or its connect error. When every try returned -1 the result is -1 |
| UdpDataStream.Connect | src/bm_udp_datastream.c:100-149 | connect first disconnects and returns 0 or 1 following the stream contract (0 exactly with status Error, 1 with Ready). A resolution failure returns 0 with its reason. After resolution it returns 1 exactly when the interface loop yields a socket, and then holds that socket; a connect error becomes the status text. After a failure no socket is held. Success sets the status text "ready". The operation table, id, descriptor, server and port are kept |
| UdpDataStream.ConnectReadyWithoutSocket | src/bm_udp_datastream.c:126-148 | when socket() returns -1 on every resolved interface, or there is none, connect still reports success and Ready while holding no socket |
| UdpDataStream.Send | src/bm_udp_datastream.c:168-192 | send returns -1 with nothing changed unless the stream is Ready. Otherwise it returns the full length exactly when the partial sends add up to it, with the data on the wire in order. A send error leaves the stream disconnected, in Error, with a negative result |
| UdpDataStream.ReceiveAll | src/bm_udp_datastream.c:206-218 | the receive loop assembles the same outcome as the recursive reference: the concatenated partial receives once the size is reached, an orderly close at the first empty receive, or the first error |
| UdpDataStream.Recv | src/bm_udp_datastream.c:197-221 | recv returns -1 with nothing changed unless Ready. A positive result is exactly the requested size, with the frame assembled from the partial receives. An orderly close returns 0 and changes nothing. An error disconnects, sets Error and returns a negative value, keeping server and port. A size above SSIZE_MAX receives nothing and returns the size wrapped to a negative ssize_t, with the stream unchanged |
| CInt.ToSsizeT | src/bm_udp_datastream.c:205 | a size_t stored in an ssize_t keeps its value up to SSIZE_MAX and turns negative above it |
| CInt.SizeRoundTrip | src/bm_udp_datastream.c:205 | storing a size in an ssize_t and converting it back to size_t gives the size again |
| UdpDataStream.Destroy | src/bm_udp_datastream.c:91-95 | destroy closes an open socket first and never closes one otherwise, then releases the strings and finally the stream itself |
| Text.StrtokRYieldsTokens | src/bm_dispatcher.c:149-174 | the strtok_r cursor yields exactly the non-empty colon-separated pieces of the rest of the string, one per call, in order |
| Text.FirstTokenVersusPrefix | src/bm_datastream.c:26-36 | the first strtok_r token equals init's id unless the descriptor starts with a colon; then the id is empty and is not a token |
| Text.Strtol | src/main.c:141-142 | strtol yields a value within the range of long and an end index. It reads nothing (end 0) only with value 0, and otherwise stops right after a digit, before any further digit |
| Text.StrtolReads | src/main.c:141-142 | any numeral (blanks, at most one sign, digits) followed by a non-digit or the end is read to the end of its digits, with its value clamped to the range of long |
| Text.StrtolReadsOnlyNumerals | src/main.c:141-142 | whenever strtol reads something, the text up to the end index is such a numeral and the value is its clamped value |
| Dispatcher.New | src/bm_dispatcher.c:97-122 | a new dispatcher has an empty, well-formed registry, message length 0, and is not started |
| Dispatcher.FindId | src/bm_dispatcher.c:156-167 | the id search finds the first registered stream with the token as id, and finds none exactly when no stream has it |
| Dispatcher.StreamAdd | src/bm_dispatcher.c:144-229 | every refusal leaves the dispatcher unchanged. A success puts the new stream, Ready, with the TCP operations, the descriptor and the prefix id, at the head in front of the old list, and the count grows by one |
| Dispatcher.StreamAddSucceedsIff | src/bm_dispatcher.c:144-229 | registration succeeds exactly when there are two tokens, the first unused as an id, the second tcp, and connect and the thread both succeed |
| Dispatcher.StreamAddRefusals | src/bm_dispatcher.c:149-219 | a refusal names its cause in check order: no token, duplicate id (with the holder's descriptor), no type, bt or unknown type, connect failure, thread failure |
| Dispatcher.StreamAddKeepsWf | src/bm_dispatcher.c:220-224 | registration keeps the count equal to the registry length and every registered stream with an id |
| Dispatcher.StreamAddKeepsIdsUnique | src/bm_dispatcher.c:156-167 | for descriptors not starting with a colon, registration keeps ids unique |
| Dispatcher.LeadingColonDuplicatesId | src/bm_dispatcher.c:149-167 | a descriptor with a leading colon passes the duplicate check and registers under the empty id even when that id is taken |
| Dispatcher.Broadcast | src/bm_dispatcher.c:28-47 | every stream but the origin receives the unmodified message with the dispatcher's length exactly once, in list order; the origin receives nothing. Exactly the destinations whose send returned less than the length, negative results included, are reported. Which sends happen does not depend on any send's result |
| Dispatcher.AsWrittenReadsUninitialised | src/bm_dispatcher.c:33-37 | as written, a broadcast from the head stream tests `sent` before anything was stored in it, so that verdict is whatever the garbage gives |
| Dispatcher.AsWrittenBlamesOrigin | src/bm_dispatcher.c:33-43 | as written, the origin's test re-reads the previous destination's short count and reports it against the origin |
| Dispatcher.AsWrittenMissesSendError | src/bm_dispatcher.c:37 | as written, a negative send result converts to a huge size_t and is never reported; the corrected broadcast reports it |
| Dispatcher.Served | src/bm_dispatcher.c:70-81 | the receiver serves exactly the leading positive receive results |
| Dispatcher.Receiver | src/bm_dispatcher.c:58-92 | a receiver joins the active count, broadcasts once per positive receive result, stops at the first result of 0 or less (or when the stop flag is seen), and then leaves |
| Dispatcher.ReceiverBalancesCounter | src/bm_dispatcher.c:63-91 | on either way out, a receiver decrements the active count exactly once, leaving it as it found it |
| Dispatcher.CountIsLive | src/bm_dispatcher.c:63-91 | in every interleaving where each thread increments once and then decrements at most once, the counter equals the number of receivers still running |
| Dispatcher.ShutdownConverges | src/bm_dispatcher.c:250-255 | once every started receiver has left, the counter is zero and the next poll ends the relay without a signal |
| Dispatcher.DestroyAll | src/bm_dispatcher.c:127-139 | teardown calls each registered stream's own destroy once, in list order |
| Cli.CStr | src/main.c:64-67 | the text the line loop sees is the part of the line before its first NUL: a prefix without NUL that is followed by a NUL unless it is the whole line |
| Cli.DescriptorOfLine | src/main.c:65-73 | a line yields no descriptor exactly when it is blank or its first non-blank character is '#'. Otherwise it yields a non-empty descriptor with no surrounding whitespace, which sits in the line between whitespace only; an inner '#' is kept |
| Cli.DescriptorOfPaddedLine | src/main.c:65-73 | any descriptor padded with whitespace on both sides is read back exactly |
| Cli.TrimIdempotent | src/main.c:65-73 | trimming a trimmed descriptor changes nothing |
| Cli.Descriptors | src/main.c:64-84 | a file never offers more descriptors than it has lines |
| Cli.DescriptorsAppend | src/main.c:64-84 | the descriptors of a file split in two are those of its first part followed by those of its second, so they come in line order |
| Cli.DescriptorsOfLines | src/main.c:64-84 | a file offers exactly the descriptors its lines yield |
| Cli.FileParse | src/main.c:48-85 | reading a file keeps the dispatcher well formed and never touches the message length or the start flag |
| Cli.AddAllRegistersEach | src/main.c:64-84 | a file read to its end registers one stream per descriptor line, the last line's at the head, in front of the streams registered before |
| Cli.AddAllStopsAtFailure | src/main.c:74-78 | after a refused descriptor, later lines are never offered for registration |
| Cli.ParseSize | src/main.c:140-146 | an accepted size fits a size_t and the argument ends in a digit |
| Cli.ParseSizeReadsNumeral | src/main.c:140-146 | an argument that is wholly a numeral is accepted as its value, clamped to long and then stored in a size_t |
| Cli.ParseSizeAcceptsIff | src/main.c:140-146 | a size is accepted exactly when the whole argument is a numeral, so "", "x5", "1x5" and "5 5" are refused |
| Cli.ParseSizeDecimal | src/main.c:140-146 | a plain decimal numeral within the range of long is accepted as its value |
| Cli.ParseSizeMinusOne | src/main.c:140-146 | "-1" is accepted and stored as SIZE_MAX |
| Cli.Options | src/main.c:113-163 | the argument loop never yields usage or a scan. When it starts the relay, the dispatcher is well formed, not started, and has a message length between 1 and SIZE_MAX |
| Cli.Main | src/main.c:90-170 | no argument gives usage, and only no argument does. A lone "scan" scans (a failure only when Bluetooth support is built in and the scan fails), "scan" with more arguments fails, and a relay run has a positive size |
| Cli.OptionsRelaying | src/main.c:114-163 | when the argument loop starts the relay, every argument was well formed, the message length is the value of the last -s, and the registry is the starting one with new streams on top whose descriptors are offered ones in argument order, a file's lines where its -f stands |
| Cli.MainRelaying | src/main.c:109-165 | a relay run from main is built from all its arguments over an empty dispatcher, in the sense of Cli.OptionsRelaying |
| Cli.OptionsDescriptorTail | src/main.c:154-163 | when only descriptors are left, the loop registers each one that is accepted, in order, then relays if the size so far is positive and otherwise stops for want of a size |
| Cli.LastSizeCons | src/main.c:132-147 | read left to right, each -s replaces the size so far |
| Cli.RefusedDescriptorSkipped | src/main.c:154-157 | a refused command-line descriptor leaves the run as if it were absent |
| Cli.RefusedFileLineStops | src/main.c:118-130 | a file with a refused line stops the run with failure |
| Cli.UnknownOptionStops | src/main.c:148-152 | an argument starting with '-' that is none of the four options stops the run |
| Cli.MissingValueStops | src/main.c:118-139 | -f or -s without a following argument stops the run with the matching error |
| Cli.BadSizeStops | src/main.c:132-146 | a size value that is not wholly a numeral (empty, without digits, or with anything after its numeral) stops the run |
| Cli.SizeIsRequired | src/main.c:159-163 | with no -s at all, streaming mode never starts the relay |

## Left out

- Threads, mutexes, the condition variable and start gate, the signal handler, `sleep` polling, `pthread_cancel` and `pthread_join` (src/bm_dispatcher.c:234-266). These exist for concurrency. The model keeps only the receiver trace and the counter across interleavings.
- The race between a thread's first increment of the active count and the first poll is not modelled. A poll can see 0 before any receiver has started and end the relay at once.
- Socket calls (`getaddrinfo`, `socket`, `connect`, `send`, `recv`, `close`) become sequences of results supplied by the caller. A send that moves 0 bytes is excluded by the progress precondition `SendCompletes`, because the C send loop then never ends. A receive of 0 bytes is modelled: it is the orderly close that makes recv return 0. `RecvCompletes` only requires enough replies, none larger than what was asked.
- The TCP driver's implementation is not part of this model. Its connect and thread-creation outcomes are inputs.
- Cli.Env: the connect and thread-creation outcomes are keyed by the descriptor's text alone (`Env.drivers`), so a descriptor given twice meets the same outcome both times. A real connect that fails once and succeeds on a retry is not modelled.
- Dispatcher.StreamAdd: assumes the TCP driver returns a stream. A NULL from `bm_tcp_datastream_new` would be dereferenced. The stream it registers is stated Ready, per the stream contract, and the model gives it the UDP driver's description "ready".
- Dispatcher.StreamAdd: generic destroy, which the code calls on a connect or thread failure, is not modelled. The stream is simply not registered.
- The Bluetooth driver (empty stubs) and `bm_bt_scan` (device I/O) are left out. The scan's result is an input, and `bt` as a type is refused, as the code does.
- Debug printing, all diagnostic text on stderr and stdout, and the usage text are left out. Refusals and errors are named by datatype constructors instead of messages, except for the status descriptions the streams store.
- File opening and `getline` are left out. A file is a list of lines or absent. The `getline` buffer is read only up to its first NUL, as C does.
- Memory management is left out:
  - the free of the uninitialised `status_desc` in the first `set_status` call;
  - the UDP server and port strings, which are never freed;
  - the dispatcher that `main` does not destroy on some error paths;
  - the uninitialised id and socket read when UDP `new` destroys a stream whose init failed;
  - the socket and the address list that UDP `connect` leaks when a connect call fails (src/bm_udp_datastream.c:135-142): it returns without `close` or `freeaddrinfo`. The model only keeps the stream's socket at -1 and its Error status.
- `next` is not a field: a stream's list position is its index in the registry.
- Dispatcher.Receiver: the stop flag is observed only between receives, so a receive result list that runs out means the flag was seen.
- Cli.Options: which offered descriptors end up registered is stated as an order-keeping selection (Cli.OptionsRelaying), with the choice itself stated step by step: a refused command-line descriptor is skipped (Cli.RefusedDescriptorSkipped), a refused file line stops the run (Cli.RefusedFileLineStops), and a tail of descriptors is registered exactly (Cli.OptionsDescriptorTail).
- Cli.Main: arguments are taken as strings without NUL, which is what C's `argv` holds.
- Cli.ParseSize: values outside the range of long are clamped as `strtol` does, and `errno` is not consulted, as in the code.

## Findings

| source | as written | input that shows it | evidently intended | confidence | as-written member | corrected member |
|---|---|---|---|---|---|---|
| src/bm_datastream.c:34-36 | the id block has `n + 1` bytes for the `n` characters before the colon, but the terminator is stored at index `n + 1`, one past its end, and byte `n` is never written | any descriptor with a colon, e.g. `a:tcp:h:1` (a 2-byte block, terminator written at index 2) | terminator at index `n`, the id being the text before the colon | high; not executed | DataStream.IdTerminatorOutOfBounds | DataStream.IdBufferHoldsPrefix |
| src/bm_dispatcher.c:33-37 | `sent` is assigned only for streams other than the origin but tested for every stream | a broadcast from the head stream reads `sent` before any assignment; a broadcast from a later stream whose predecessor's send returned a short count reports that count again, against the origin | no shortfall test for the origin | high; not executed | Dispatcher.AsWrittenBlamesOrigin | Dispatcher.Broadcast |
| src/bm_dispatcher.c:37 | `sent < dispatcher->msg_len` compares an `ssize_t` with a `size_t`, so a negative result converts to a huge unsigned value | a destination whose send fails and returns -1, which compares as SIZE_MAX, not below the length | a failed send is reported as a shortfall, as the "sent %zd bytes" diagnostic expects | high; not executed | Dispatcher.AsWrittenMissesSendError | Dispatcher.Broadcast |
