# Verified model of ducq

ducq is a small message broker in C: clients connect over TCP or WebSocket, subscribe to
routes, and publish messages that the broker's reactor fans out to every subscriber whose
route matches. This project models the parts of it that carry state, loops or arithmetic,
in the form the C code has them (contexts and connections are classes, buffers are arrays,
loops are loops), and proves them against specifications that are written down separately.

| file | models | against |
|---|---|---|
| `Sha1Spec`, `Sha1`, `Sha1Runs` | `src/sha1.c`, streaming | the one-shot digest of FIPS PUB 180-1, sections 4 and 7 |
| `Sha1Vectors`, `AcceptSample` | the digest and the handshake answer, computed | the samples of FIPS PUB 180-1 and RFC 6455 |
| `Base64` | `src/base64.c` | section 4 of RFC 4648, and a decoder |
| `AcceptKey` | `ws_make_accept_key` | section 4.2.2 of RFC 6455, through the two above |
| `Stream` | `readn`, `writen` | an arbitrary schedule of short counts, interrupts and failures |
| `Decimal`, `TcpFraming` | `src/ducq_tcp.c` | what a whole input stream means, cut in any way |
| `WsHeader`, `WsFraming` | `src/inet_ws.c`, `src/ducq_ws.c` | sections 5.2 and 5.3 of RFC 6455 |
| `WsSamples` | frames and answers to them, computed | the examples of section 5.7 of RFC 6455 |
| `Exchange` | both ends of a connection | the messages received are the messages sent |
| `Table`, `TableRuns`, `Round` | the connection table, its loops and rounds, as values | invariants of all runs |
| `LastMessages` | the cache of last messages | a bounded map |
| `Commands` | `pub` and `sub`, as values | whom a message reaches, and when |
| `Reactor` | the reactor object, updated in place | `Table`, `Round`, `LastMessages`, `Commands` |
| `Route` | `ducq_route_cmp` | ways of splitting a route along a pattern |
| `MessageText`, `States` | printers and parsers of `src/ducq.c` | each other |
| `Keepalive` | `ducq_receive`, `ducq_listen` | the history of pings and messages |
| `Bytes`, `Basics` | bytes, byte order, operations on bits; what several modules share | |

How the pieces fit:

- **Callbacks.** A callback run by the reactor's loop may call the reactor again. It is
  modelled as the tree of calls it makes (`Table.Callback`, `Table.Op`), so a lemma for all
  trees is a lemma for all callbacks, at any nesting. `TableRuns.RunWithin` turns any
  relation that single calls respect into one that whole runs respect.
- **Records the C code does not keep.** `World` adds to the slots the clients accepted, the
  clients closed, and `lawful`: whether callers passed open descriptors, client objects that
  were not in the table already, and routes under 100 characters. Addresses of closed clients
  may be used again.
- **Networks.** `Stream.Descriptor` is a file descriptor with the peer's bytes and a schedule
  of what single `read` and `write` calls do. A schedule is `Steady` if it has no outright
  failure; short counts and interrupts are arbitrary. The contracts of the framing methods say
  that with a steady schedule the outcome depends on the bytes alone.
- **C strings.** Texts handed around as pointers are strings without NUL; where the C code
  cuts a buffer in place (`strtok`, `sub`), the model cuts an array of characters.
- **Samples.** Code and specification share small definitions: a logical function, a constant,
  a frame's first byte. What those mean is fixed by computing the published samples of the
  standards in full, and by stating outcomes in words that do not use the definition.
- **Hidden words.** SHA-1's 32-bit words are `bv32`; lengths and counters are integers with
  their wrap-around written out.

## What the proofs brought out

- The `SHA1Input` call that reaches 2^64 bits still returns success, and leaves code 1
  ("null") rather than the library's code 2 ("input too long") for later calls
  (`Sha1Runs.Codes`, `Sha1Runs.DigestOfRun`).
- An empty payload sent over TCP is received as "connection closed"; frames come back
  unchanged exactly when they are not empty and leave room for the terminator in a buffer of
  three or more (`TcpFraming.ReceiveFrame`).
- The keepalive loop remembers a ping only by the four letters in the message buffer, and a
  receive over TCP that fails can change them, in both directions. It can lose them: then the
  next timeout pings again (`Keepalive.SecondPing`). And it can forge them: a message that
  begins with PING, cut short by a would-block behind its fourth letter, is reported as a
  timeout although no ping was ever attempted (`Keepalive.ForgedByPayload`,
  `Keepalive.TimeoutWithoutPing`). `Keepalive.TcpLetters` says exactly when the letters stand in
  front after a failure, wherever the receive stops; `Keepalive.TimeoutsAndPings` says exactly
  when all reports of a run are right: when every receive that times out finds the letters if
  and only if an earlier one timed out in the same silence. Receives that leave the buffer
  alone when they fail meet that (`Keepalive.UntouchedIsRight`).
- The TCP receive wrapper asks `errno` whether a failed read was a timeout, also when nothing
  failed and the payload was cut short by the end of the stream. Without a failing read it
  reports a timeout if and only if the payload was cut short, `errno` said would-block before
  the call, and no call made was interrupted (`TcpFraming.Recv`); `TcpFraming.StaleTimeout` is
  such a call.
- The WebSocket length check lets payloads of up to `count + 1` bytes through, terminator not
  counted. With a buffer of exactly `count` bytes, which is what the reactor passes, a frame
  overruns it if and only if its payload has `count` or `count + 1` bytes
  (`WsFraming.OverrunsExactly`).
- `ducq_route_cmp` never goes back, so it is not ordinary wildcard matching: `*ab` does not
  match `aab` (`Route.GlobWithoutMatch`). `Route.GlobEverywhere` says for which patterns it is,
  on every route: exactly those where every star but a last one is followed by one character
  and another star. `Route.GlobIsMatch` covers single routes of other patterns, and
  `Route.MatchesExactly` says what is matched in general, runs of stars included.
- `ducq_reactor_subscribe` looks at freed slots too. For clients in the table that is harmless
  (`TableRuns.SubscribeFindsItsSlot`). For others its answer is truthful exactly when no freed
  slot has kept their address (`TableRuns.SubscribeTruthful`), so right after a delete it never
  is (`TableRuns.DeletedClientIsFound`); the wrong answer changes nothing but the route of one
  freed slot (`TableRuns.WrongAnswerHarmless`).
- A callback that deletes its own client, adds another one, and then answers DELETE closes the
  newcomer (`TableRuns.RefilledSlotLosesNewcomer`). Every client is still closed exactly once.
- A publish on the empty route is answered as stored, and stored nowhere
  (`LastMessages.SetRefines`).
- `ws_reorder_16` and `ws_reorder_64` have a test for network byte order that is false on every
  host, so they always swap; that is right on little-endian hosts only.
- `ducq_parse_msg` and the `strchr` parsers agree on regular messages with a payload, on the
  empty text, and on a lone command followed by a space; on nothing else
  (`MessageText.ParsersAgree`).
- `base64_encode` compares its `int dsize` as a `size_t`, so a negative one is never too small
  (`Base64.Base64Encode`).

## Model

| member | source | states |
|---|---|---|
| Sha1Spec.UnpadPad | src/sha1.c:338-383 | the message comes back out of its padded blocks, for every message under 2^64 bits |
| Sha1Spec.PadInjective | src/sha1.c:338-383 | padding is injective and adds exactly one or two final blocks: two when the last block holds 56 bytes or more |
| Sha1Spec.PadOneBlock | src/sha1.c:360-382 | with room for the length, padding completes the last block and nothing else is compressed |
| Sha1Spec.PadTwoBlocks | src/sha1.c:346-365 | without room, the last block is filled with zeros and the length ends a second one |
| Sha1.CircularShift1 | src/sha1.c:37-38 | the shift-and-or macro is the rotation of FIPS 180-1, section 3; the same for 5 and 30 |
| Sha1.CountByte | src/sha1.c:186-195 | the two 32-bit halves count eight bits a byte, and wrap to zero exactly at 2^64 bits |
| Sha1.AfterInputAppend | src/sha1.c:157-206 | feeding two pieces leaves what feeding their concatenation leaves, in every phase |
| Sha1.Context.Reset | src/sha1.c:59-79 | whatever the context was, it now stands for the empty message |
| Sha1.Context.ExpandBlock | src/sha1.c:244-255 | the word array filled in place is the recursive 80-word schedule of the block |
| Sha1.Context.Mix | src/sha1.c:257-303 | the four 20-step loops compute the 80 rounds of the recursive definition |
| Sha1.Context.ProcessMessageBlock | src/sha1.c:228-312 | the chaining words become the compression of the old ones with the buffered block; the index is reset |
| Sha1.Context.PadMessage | src/sha1.c:338-383 | after one or two compressions the chaining words are the chain over the padded message |
| Sha1.Context.StoreLength | src/sha1.c:373-380 | the eight stores put the bit length in network order behind the first 56 bytes |
| Sha1.Context.CountBits | src/sha1.c:186-196 | the counter goes on to stand for one more byte, or the context is marked corrupted at 2^64 bits |
| Sha1.Context.AbsorbByte | src/sha1.c:181-203 | one pass of the input loop takes exactly one byte in, compressing a block when it is full |
| Sha1.Context.Input | src/sha1.c:157-206 | a call takes its bytes in, is refused after a digest, or overflows; index below 64 afterwards; the exact return code |
| Sha1.Context.Result | src/sha1.c:100-135 | the digest of everything absorbed, or the sticky error code with the output untouched |
| Sha1Runs.DigestOfRun | src/sha1.c:59-206 | after a reset, a digest stays available iff no byte came after a digest and fewer than 2^64 bits came in; it is then the one-shot digest of everything fed in |
| Sha1Runs.SplitDoesNotMatter | src/sha1.c:157-206 | every way of cutting a message into input calls gives its one-shot digest |
| Sha1Runs.Sticky | src/sha1.c:110-126 | asking again changes nothing; a non-empty input after a digest blocks all later ones; an error stays until reset |
| Sha1Runs.Codes | src/sha1.c:100-206 | every return code as a number: the overflowing input is accepted with 0, everything after it refused with 1; input after a digest is refused with 3 from then on |
| Sha1Vectors.DigestOfAbc | src/sha1.c:228-383 | the digest of "abc" is the one printed in FIPS PUB 180-1, appendix A: all constants, logical functions and words of it |
| Base64.DecodeEncode | src/base64.c:42-73 | the decoder recovers every input |
| Base64.TestVectors | src/base64.c:42-73 | four test vectors of section 10 of RFC 4648, with one, two and three bytes in the last group |
| Base64.EncodeAppend | src/base64.c:42-73 | encoding is group by group: a prefix of whole groups can be encoded on its own |
| Base64.TableAt | src/base64.c:8-17 | the 64-character table is Table 1 of RFC 4648 |
| Base64.EncodeLength | src/base64.c:28-31 | the encoding with its terminator is 4*ceil(n/3)+1 long |
| Base64.NeededByRounding | src/base64.c:28-31 | the source's division and correction compute that length |
| Base64.GroupCode | src/base64.c:42-56 | characters 4g to 4g+3 of the encoding are those of the four bit fields of group g |
| Base64.EncodeGroup | src/base64.c:43-55 | the source's shifts, masks and or-assignments, in bits, put exactly those four characters there, and touch nothing else |
| Base64.AndLeft | src/base64.c:46-50 | a left shift under a mask that starts at the shift keeps exactly the low bits the mask is wide |
| Base64.OrFields | src/base64.c:46-51 | the or-assignments join bit fields that do not overlap, so they add |
| Base64.TailCode | src/base64.c:58-73 | the encoding of zero, one or two left-over bytes, by bit fields and padding |
| Base64.EncodeGroups | src/base64.c:42-56 | the loop writes exactly the encoding of the whole groups and leaves the rest alone |
| Base64.EncodeTail | src/base64.c:58-73 | the tail writes exactly the encoding of what is left over |
| Base64.Base64Encode | src/base64.c:19-79 | -1 iff a pointer is null; -2 iff a non-negative dsize is too small; otherwise the encoding and a terminator, and not a byte more |
| AcceptKey.AcceptCarriesDigest | src/inet_ws.c:258-280 | the answer has 28 characters and decodes to the digest of key and GUID |
| AcceptKey.HashBuffer | src/inet_ws.c:271-273 | reset, one input and result give the one-shot digest of the 60 bytes, and cannot fail |
| AcceptKey.WsMakeAcceptKey | src/inet_ws.c:258-280 | the answer of RFC 6455, section 4.2.2, or exactly one of three errors with the output untouched |
| AcceptSample.AcceptOfSample | src/inet_ws.c:258-280 | the answer to the key of section 1.3 of RFC 6455 is the one printed there, through two blocks of the digest and the encoding |
| Stream.Descriptor.Readn | src/inet_socket.c:18-40 | what is read is a prefix of the stream, in order; all n or all there is unless a call failed outright, however reads are cut or interrupted; errno afterwards, by the calls made |
| Stream.Descriptor.Writen | src/inet_socket.c:43-61 | everything is written, in order; on failure a strict prefix |
| Decimal.ReadPrint | src/ducq_tcp.c:47-62 | a printed length reads back as itself |
| Decimal.PrintIsShort | src/ducq_tcp.c:34-41 | a number from 2 on has fewer digits than its value, so a fitting length always passes the digit loop's bound |
| TcpFraming.ReadDigits | src/ducq_tcp.c:34-41 | the loop stops behind the run of digits, at the end of the stream, or at the bound, leaving the rest unread |
| TcpFraming.ReadLength | src/ducq_tcp.c:34-48 | the length line gives a length or one of four errors; what is left unread, and what is in the buffer |
| TcpFraming.DucqTcpRecv | src/ducq_tcp.c:29-57 | the outcome is that of the whole input, however it is fragmented: the error codes, the payload and its terminator, what is left unread; the whole buffer afterwards, also when a read failed; nothing written from size on |
| TcpFraming.Recv | src/ducq_tcp.c:115-129 | a timeout is reported iff errno says would-block after a read that failed or a payload cut short; when no read fails, iff the payload was cut short, errno said so before, and no call made was interrupted |
| TcpFraming.CutShort | src/ducq_tcp.c:50-53 | an input whose payload the end of the stream cuts short is unread without any read failing |
| TcpFraming.StaleTimeout | src/ducq_tcp.c:115-129 | on that input, with errno left at would-block and no call failing, a timeout is reported |
| TcpFraming.LeftAt | src/ducq_tcp.c:29-57 | the caller's buffer character by character, wherever the receive stopped: payload, NUL, digits, or what was there |
| TcpFraming.DucqTcpSend | src/ducq_tcp.c:59-73 | the whole frame is written, or an error reported with a strict prefix written |
| TcpFraming.ReceiveFrame | src/ducq_tcp.c:29-73 | a frame comes back unchanged iff it is not empty and fits size - 1, in a buffer of three or more; an empty one is taken for a closed connection |
| TcpFraming.ReceiveFrames | src/ducq_tcp.c:29-73 | any sequence of messages that fit is received in order |
| TcpFraming.CutFrame | src/ducq_tcp.c:42-53 | a frame cut short anywhere: closed connection up to the end of its length line, read error in the payload |
| TcpFraming.Refusals | src/ducq_tcp.c:34-48 | which error a wrong terminator, a stream that ends in digits, too many digits and a payload too large give, and what is left unread |
| TcpFraming.FrameOfHello | src/ducq_tcp.c:62-69 | the bytes on the wire for "hello" |
| TcpFraming.FrameLengthFits | src/ducq_tcp.c:47-48 | a frame's own length field never leaves the range of int |
| WsHeader.WsReorder16 | src/inet_ws.c:16-27 | the result is stored by a little-endian host as the network has the argument |
| WsHeader.WsReorder64 | src/inet_ws.c:28-41 | the same for eight bytes |
| WsHeader.Reordered | src/inet_ws.c:66-72 | a little-endian load, reordered, is the big-endian value of the bytes |
| WsHeader.WsGetMsk | src/inet_ws.c:50-58 | where the mask of the current length class is, and that the four bytes there are the mask |
| WsHeader.WsSetMsk | src/inet_ws.c:60-65 | the new header bytes, and that nothing behind the header changes |
| WsHeader.WsGetLen | src/inet_ws.c:66-72 | the length the header bytes stand for |
| WsHeader.WsSetLen | src/inet_ws.c:73-93 | the new header bytes, mask moved along, and that nothing behind the header changes |
| WsHeader.WsGetHdrLen | src/inet_ws.c:96-108 | the size of the header that is in the buffer |
| WsHeader.SetLenEncodes | src/inet_ws.c:73-93 | any buffer whatever starts with RFC 6455's minimal encoding of the new length afterwards, with the mask it had at its new place; byte 0 is kept |
| WsHeader.SetMaskEncodes | src/inet_ws.c:60-65 | setting a mask keeps the encoded length |
| WsHeader.EncodedIsRead | src/inet_ws.c:50-108 | an encoded header reads back: length, mask and size |
| WsHeader.EncodingIsMinimal | src/inet_ws.c:73-93 | no header that reads as the same length, masked or not alike, is shorter |
| WsHeader.SettersCompose | src/inet_ws.c:50-108 | after any sequence of setters on a zeroed header the getters give the last length and the last mask, the encoding is minimal, and its size is exact |
| WsHeader.WsMaskMessage | src/inet_ws.c:197-200 | the payload is masked as in section 5.3 of RFC 6455, and nothing around it changes |
| Bytes.XorBitsAt | src/inet_ws.c:197-200 | each bit of the masking operation is the sum without carry of payload bit and key bit |
| WsSamples.MaskedHello | src/inet_ws.c:197-200 | "Hello" under the key of section 5.7 of RFC 6455 becomes the bytes printed there |
| WsSamples.TextFrames | src/ducq_ws.c:76-103 | the frames a server and a client send for it are those of section 5.7 |
| WsSamples.LongHeaders | src/inet_ws.c:73-93 | the headers for 256 bytes and for 64 kibibytes are those of section 5.7 |
| WsSamples.Answers | src/ducq_ws.c:149-163 | the ping of section 5.7 is answered by its pong, masked by a client; 0x88 closes, 0x81 is a message, 0x82 is not implemented |
| WsHeader.MaskedTwice | src/inet_ws.c:197-200 | masking twice with a key gives the payload back |
| WsFraming.DucqWs.Prepare | src/ducq_ws.c:81-95 | whatever the shared buffer held, it then holds the header for this payload and mask; a client's copy is masked |
| WsFraming.DucqWs.WsSend | src/ducq_ws.c:76-103 | exactly one whole frame is written, or an error reported with a strict prefix written; a client refuses more than DUCQ_MSGSZ |
| WsFraming.DucqWs.Send | src/ducq_ws.c:166-173 | the frame is a final text frame |
| WsFraming.DucqWs.ReadHeader | src/ducq_ws.c:123-132 | exactly the header's bytes are taken off the stream and laid over the old buffer |
| WsFraming.DucqWs.ReadPayload | src/ducq_ws.c:134-147 | length check, payload, mask taken off by a server, terminator, what is left unread |
| WsFraming.DucqWs.Dispatch | src/ducq_ws.c:149-163 | close, ping with its pong frame, unexpected opcodes, text |
| WsFraming.DucqWs.Recv | src/ducq_ws.c:116-164 | the outcome is that of the whole input, however it is fragmented, for any stale header buffer |
| WsFraming.RecvSent | src/ducq_ws.c:75-164 | a frame of the opposite role comes back with its opcode and payload, or is refused for its length, whatever the receiver's buffer held |
| WsFraming.OverrunsExactly | src/ducq_ws.c:134-147 | a frame overruns a buffer of exactly count bytes iff its payload has count or count + 1 bytes, whatever the header buffer held |
| WsFraming.RecvFrames | src/ducq_ws.c:75-164 | any sequence of payloads one role sends, with any masks, is received by the other, in order |
| Exchange.TcpExchange | src/ducq_tcp.c:29-73 | any non-empty messages that fit, sent by one end and received by the other over steady descriptors, come back the same, in order, with nothing left over |
| Exchange.WsExchange | src/ducq_ws.c:75-173 | the same for text frames between two roles, with any masks, whatever the two header buffers held |
| Table.Find | src/ducq_reactor.c:229-239 | a first-match scan finds the first slot with the property |
| TableRuns.FreeKeeps | src/ducq_reactor.c:103-117 | freeing a slot keeps the invariant: live slots ahead of stale copies, kinds match pointers, clients accepted are closed or in the table |
| TableRuns.AddClientKeeps | src/ducq_reactor.c:186-200 | so does adding a client, even at an address a freed slot still holds, because first fit puts it ahead of every stale copy |
| TableRuns.AddServerKeeps | src/ducq_reactor.c:170-185 | so does adding a server |
| TableRuns.ClientPlaced | src/ducq_reactor.c:186-200 | an added client goes to the first free slot, with no route; with none free, nothing changes |
| TableRuns.ServerPlaced | src/ducq_reactor.c:170-185 | an added server goes to the first free slot, with its accept function and context |
| TableRuns.DeleteIsLoop | src/ducq_reactor.c:261-272 | deleting is the reactor's loop with a callback that answers DELETE and BREAK for the client: its slot is freed, and no other |
| TableRuns.SubscribeKeeps | src/ducq_reactor.c:229-239 | so does subscribing, also through a stale slot |
| TableRuns.RunWithin | src/ducq_reactor.c:209-258 | what every single call respects, every run respects, with callbacks calling the reactor inside loops inside callbacks |
| TableRuns.LoopWithin | src/ducq_reactor.c:209-225 | the same for one loop with its deletions and early exit |
| TableRuns.SubscribeFindsItsSlot | src/ducq_reactor.c:229-239 | in every reachable table (every one in the invariant), subscribing a client that is in it changes the route of its own live slot and no other |
| TableRuns.SubscribeTruthful | src/ducq_reactor.c:229-239 | in every reachable table, success is reported iff the client is in the table or a freed slot has kept its address; so the answer is truthful iff one is in the table or no freed slot has |
| TableRuns.WrongAnswerHarmless | src/ducq_reactor.c:229-239 | subscribing a client that is not in the table changes at most the route of one freed slot with its address: every live slot, and who is closed, stays as it was |
| TableRuns.DeletedClientIsFound | src/ducq_reactor.c:229-272 | right after any delete in any reachable table, subscribe finds the deleted client |
| TableRuns.DeletedClientSubscribes | src/ducq_reactor.c:229-239 | a concrete run: add, delete, subscribe, and success is reported |
| TableRuns.VisitCloses | src/ducq_reactor.c:213-221 | a callback's DELETE closes its own client iff it is still in the slot, nobody if the slot was emptied, and whoever is in it if it was refilled |
| TableRuns.RefilledSlotLosesNewcomer | src/ducq_reactor.c:213-221 | the refilled case occurs, and closes the newcomer |
| TableRuns.SweepClosesRest | src/ducq_reactor.c:118-128 | from any table in the invariant, the final sweep leaves every client closed as often as it was accepted |
| Round.CountdownSkipsNobody | src/ducq_reactor.c:326-363 | a round that stops when the ready descriptors are counted down is the round that looks at every slot, whatever callbacks delete |
| Round.EverySurvivorServed | src/ducq_reactor.c:373-391 | each ready slot is served at most once, in slot order, and every one still there at the end has been served |
| Round.QuietRound | src/ducq_reactor.c:326-363 | when services make no calls, exactly the ready slots are served in order; a client whose turn brings a failed receive is freed and closed, everything else stays |
| Round.AllHangUp | src/ducq_reactor.c:351-360 | when every receive fails, all ready clients are freed, and nothing else changes |
| Round.HangUpIsClosed | src/ducq_reactor.c:351-360 | whatever other callbacks of the round do, a client whose receive fails is closed in it |
| Round.OneReady | src/ducq_reactor.c:326-363 | with one descriptor ready, a round is all the calls of its slot's service, or the end of its client |
| Round.LifeWithin | src/ducq_reactor.c:364-393 | what every single call respects, every life of a reactor respects: calls from outside and rounds of the main loop, in any order |
| Round.LifeKeepsInv | src/ducq_reactor.c:103-393 | every table a reactor can have, with lawful callers, satisfies the invariant |
| Round.SubscriptionLasts | src/ducq_reactor.c:209-272 | a live slot stays as it is through any calls and rounds, until its client is closed or subscribed again |
| Round.ClosedExactlyOnce | src/ducq_reactor.c:103-128 | over a reactor's life, each accepted client is closed exactly once, however it leaves; before the sweep, each but the ones in the table |
| Reactor.DucqReactor.ConnectionFree | src/ducq_reactor.c:103-117 | in place what Free does to the table |
| Reactor.DucqReactor.DucqReactorFree | src/ducq_reactor.c:118-128 | the sweep frees every slot |
| Reactor.DucqReactor.AddServer | src/ducq_reactor.c:170-185 | first fit, or EMAX with nothing changed |
| Reactor.DucqReactor.AddClient | src/ducq_reactor.c:186-200 | first fit, or EMAX with nothing changed |
| Reactor.DucqReactor.Subscribe | src/ducq_reactor.c:229-239 | the first slot with that word in it gets the route, or ENOTFOUND |
| Reactor.DucqReactor.Delete | src/ducq_reactor.c:261-272 | the loop with the deleting callback frees exactly the client's live slot, and says whether there was one |
| Reactor.DucqReactor.DucqReactorLoop | src/ducq_reactor.c:209-258 | the in-place loop, with callbacks that call back into the reactor, does what the loop on values does |
| Reactor.DucqReactor.RoundTable | src/ducq_reactor.c:326-391 | the in-place round does, and serves, what the round on values does |
| Reactor.DucqReactor.GetLastMsg | src/ducq_reactor.c:136-147 | the first entry with that route, or the default for a table with room or a full one |
| Reactor.DucqReactor.SetLastMsg | src/ducq_reactor.c:149-162 | the first entry with that route or without one gets route and message, or EMAX with nothing changed |
| Reactor.DucqReactor.PublishLoop | src/commands/pub.c:16-28 | the loop with the publishing callback: table, count and recipients |
| Reactor.DucqReactor.PubCommand | src/commands/pub.c:31-66 | table, cache, state, count and recipients of a whole pub command |
| Reactor.DucqReactor.SubCommand | src/commands/sub.c:11-48 | table, state and reply of a whole sub command; the message is put back together |
| Reactor.PayloadIsLast | src/commands/sub.c:30 | with the route's end overwritten, the payload reads "last" iff it does in the whole message |
| LastMessages.GetRefines | src/ducq_reactor.c:136-147 | for every route, a look-up is a look-up in the map; the default tells a full table from one with room |
| LastMessages.SetRefines | src/ducq_reactor.c:149-162 | a store is a store in the map; it fails iff 25 other routes are stored; on the empty route it stores nothing; occupied entries stay a prefix with distinct routes |
| LastMessages.GetIsLatest | src/ducq_reactor.c:136-162 | after any stores, on any routes, a look-up gives the latest successful store on exactly that route |
| Commands.PublishReaches | src/commands/pub.c:16-28 | the message goes once, in slot order, to exactly the live clients whose route matches; exactly those that could not be sent to are removed; other slots are unchanged; the count is that of successful sends |
| Commands.WantsMeans | src/commands/pub.c:21-22 | a publication is for a slot iff it is live, a client's, and the pattern subscribed to covers the route published on |
| Commands.PublishCloses | src/commands/pub.c:23-24 | exactly the clients that could not be sent to are closed, in slot order |
| Commands.CountIsSends | src/commands/pub.c:21-27 | the count is the number of slots sent to with success; the recipients are as many as the slots it is for |
| Commands.AudienceSplits | src/commands/pub.c:16-28 | nobody is counted who was not sent to, and every client the message is for is sent to |
| Commands.SentOnce | src/commands/pub.c:16-28 | in every reachable table, a client is sent the message once if its live slot wants it, and never otherwise |
| Commands.PublishIsLoop | src/commands/pub.c:61 | publishing is one of the reactor's loops, so what holds of all runs holds of it |
| Commands.PubAcknowledged | src/commands/pub.c:31-66 | an acknowledged publish: recipients, count, removed and closed clients, unchanged slots, and the cache |
| Commands.PubCovers | src/commands/pub.c:16-28 | in every reachable table, a client is sent an acknowledged publish iff its own pattern covers the route: a split along the pattern exists |
| Commands.PubRefused | src/commands/pub.c:40-58 | without a route, or without an acknowledgement, nobody is sent anything, and the publisher is freed and closed once |
| Commands.PubStores | src/commands/pub.c:44-46 | every publish stores its full text, acknowledged or not |
| Commands.CutKeepsLast | src/commands/sub.c:20-30 | the cut at the route's end does not change whether the payload reads "last" |
| Commands.SubLastReplies | src/commands/sub.c:30-34 | asking for the last message is answered with the full text of the latest stored publish on that route |
| Commands.SubOutcome | src/commands/sub.c:11-48 | in every reachable table, sub changes the route of the caller's own slot and nothing else; a caller that cannot be answered is closed once and its slot freed; the state returned |
| Commands.SubAnswers | src/commands/sub.c:15-37 | the reply in words: ACK, or the NACK for an invalid message or an unknown client, unless the last message is asked for; and the state returned |
| Commands.SubscriberReceives | src/commands/pub.c:16-28 | a client whose sub with a pattern went well is sent a later acknowledged publish iff the pattern covers its route, through any calls and rounds in between, until closed or subscribed again; always on the pattern's own route |
| Commands.NewcomerReceives | src/ducq_reactor.c:186-200 | a client that was added and never subscribed is sent what is published on the empty route, and nothing else |
| Route.Strchrnull | src/ducq.c:282-287 | stops at the first such character, or at the end |
| Route.DucqRouteCmp | src/ducq.c:289-311 | the loop terminates with the answer of the recursive comparison; a null route matches nothing |
| Route.MatchesExactly | src/ducq.c:289-311 | exactly what is matched, for every pattern: a split along the pattern with shortest runs, and the rule for adjacent stars |
| Route.MatchesShortestRuns | src/ducq.c:289-311 | without adjacent stars: true iff each star but a last one can cover a run without the character after it |
| Route.MatchIsGlob | src/ducq.c:289-311 | a match is an ordinary wildcard match, for every pattern |
| Route.GlobEverywhere | src/ducq.c:289-311 | a pattern matches every route as an ordinary wildcard pattern does iff every star but a last one is followed by one character and another star |
| Route.MissedIsMissed | src/ducq.c:289-311 | for every other pattern, the route Missed builds is covered by it and yet not matched |
| Route.GlobIsMatch | src/ducq.c:289-311 | on a single route the two coincide, without adjacent stars, when no character that follows a star occurs twice in it |
| Route.GlobWithoutMatch | src/ducq.c:289-311 | a concrete pattern and route on which they differ |
| Route.MatchesItself | src/ducq.c:289-311 | every route matches itself, stars and runs of stars included |
| MessageText.ParseEmitted | src/ducq.c:119-127 | what emit prints parses back into command, route and the first `size` characters of the payload; "too big" exactly from 256 characters on |
| MessageText.AckFits | src/ducq.c:129-141 | every acknowledgement fits the 128-byte buffer |
| MessageText.AckRoundTrip | src/ducq.c:267-280 | reading an acknowledgement gives the state it was sent for, for every state |
| MessageText.ParsersAgree | src/ducq.c:231-320 | the strtok parser agrees with the strchr parsers iff the message is regular with a payload, empty, or a command and one space |
| MessageText.Strtok | src/ducq.c:314-320 | one call leaves the token as a C string, cuts only behind it, and says where to go on |
| MessageText.DucqParseMsg | src/ducq.c:314-320 | the three calls leave command, route and payload in the buffer |
| MessageText.FindRoute | src/ducq.c:243-260 | start and end of the route in the buffer, or nothing |
| Keepalive.PassFacts | src/ducq.c:143-182 | no received message leaves a buffer that begins with PING, and what a timeout does, by what the receive left in the buffer |
| Keepalive.AckReported | src/ducq.c:159-170 | an acknowledgement of any state, whatever the buffer held, is a protocol message if it is ACK and a NACK otherwise |
| Keepalive.PingReported | src/ducq.c:171-175 | a ping is answered by its own text beginning with PONG |
| Keepalive.OtherReported | src/ducq.c:159-181 | texts that begin with PARTS, END, PONG or ACK are ignored; a text that begins with no protocol word is the application's |
| Keepalive.CallbackOf | src/ducq.c:197-211 | which callback an acknowledgement, a message and a failure go to, and that only a callback that says stop ends the loop |
| Keepalive.PingParses | src/ducq.c:150 | the loop's own ping is a message with a command, a route and a payload |
| Keepalive.BufferRemembers | src/ducq.c:143-182 | while failed receives keep the four letters, the buffer begins with PING iff a ping was attempted and no message came since |
| Keepalive.LettersTellExactly | src/ducq.c:147-153 | every failed receive finds the letters iff a ping is unanswered, exactly when no failed receive changed them |
| Keepalive.TcpLetters | src/ducq.c:147-149 | over TCP, wherever a receive fails and whatever the buffer held: PING stands in front afterwards iff nothing was taken and it stood there before, or the payload reaches past the digits and it and the old buffer supply the letters |
| Keepalive.TcpFailure | src/ducq.c:147-149 | over TCP, the letters of a ping survive a failure iff nothing was taken, or the payload reaches past the digits and begins with them |
| Keepalive.TcpForgery | src/ducq.c:147-149 | where the old buffer lacks the fourth letter, a failure puts PING in front iff the payload brings all four |
| Keepalive.ForgedByPayload | src/ducq.c:147-149 | a concrete receive that does, from the buffer listening starts with |
| Keepalive.TimeoutWithoutPing | src/ducq.c:147-149 | a timeout with the letters forged is reported although no ping was attempted |
| Keepalive.SecondPing | src/ducq.c:147-153 | once the letters are lost, the next timeout pings again although no message came |
| Keepalive.TimeoutsAndPings | src/ducq.c:147-153 | in every pass of a run a timeout is reported, with nothing sent, iff it came while waiting for an answer, and a ping attempted iff it came otherwise, exactly when each receive that times out finds the letters iff an earlier one timed out in the same silence |
| Keepalive.UntouchedIsRight | src/ducq.c:147-153 | all reports are right in every run whose failed receives leave the buffer alone |
| Keepalive.MessageBetweenPings | src/ducq.c:147-153 | when those reports are right, between two pings a message was received |
| Keepalive.DucqReceive | src/ducq.c:143-182 | state, text sent and new buffer of one pass, whatever a failed receive left in it |
| Keepalive.DucqListen | src/ducq.c:184-214 | each pass reports what the run so far determines, and the loop ends exactly at the first callback that says stop |

## Left out

- Exchange.WsExchange: the network between the two descriptors is an assignment, and the loops of calls on either side are the applications'; no pings come in between.
- Sockets, `select`, connecting, the close handshake, timeouts and address printing: a descriptor is a byte stream with a schedule, and a round is given its ready set.
- The remaining wrappers over descriptors, which only pass on what the functions below them report.
- Lua, the dispatcher that loads commands, HTTP requests and the upgrade text.
- Logging and the log route: off, so commands change the table only through their own code.
- `rand` and `time`: masks are arbitrary parameters; the client's nonce is not part of this model.
- Allocation failure.
- `ducq_next` and its iterator: it reads slots one by one and changes nothing.
- The other commands, among them `publish.c` and `subscribe.c`: near copies of `pub.c` and `sub.c`, or simple replies.
- The raw mode of `ducq_listen`, which skips `ducq_receive`.
- Big-endian hosts: multi-byte loads and stores are those of a little-endian host. The byte order test in `inet_ws.h` is false everywhere, so a big-endian host would swap too and send the wrong order.
- Round.LifeKeepsInv: for lawful callers only; a descriptor of -1, a client added while it is in the table, and routes of 100 characters or more are outside what the reactor is meant for.
- Table.Callback: a callback is the finite tree of calls it makes; one that never returns is not modelled. What it sends to its client does not touch the table.
- Table.Slot: the client's route and the server's context share memory in the source; here they are separate fields, and an accept function is never equal to a client's address.
- Reactor.DucqReactor.PubCommand: routes of 100 characters or more and messages of 256 or more would be cut by the copies into the cache; they are excluded. How each send goes is a parameter.
- Reactor.DucqReactor.SetLastMsg: the same routes and messages are excluded.
- Reactor.DucqReactor.SubCommand: what was sent is the reply text; how sending it goes is a parameter.
- Round.CountdownSkipsNobody: assumes that live ready slots have distinct descriptors and that connections added during the round are outside its ready set.
- TcpFraming.DucqTcpRecv: a length field outside the range of `int`, or at its end, is excluded: its conversion, or adding one to it, is undefined.
- TcpFraming.ReadLength: the same length fields are excluded.
- TcpFraming.Recv: the same length fields are excluded.
- WsFraming.DucqWs.Recv: excludes a buffer that a payload passing the length check would overrun, because the source then writes outside it; `WsFraming.OverrunsExactly` says when that is.
- WsFraming.DucqWs.ReadPayload: the same buffers are excluded.
- Sha1.Context.Input: the caller's buffer is not the context's own.
- MessageText.Emit: the prints of `ducq_emit` and `ducq_send_ack` into local buffers are modelled as the texts they produce.
- MessageText.DucqParseMsg: the three `strtok` calls are taken in the order they are written; C leaves the order open.
- Keepalive.DucqReceive: the buffer has the full message size.
