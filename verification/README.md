# A verified model of telnetty

telnetty is a TELNET stack in Go: an incremental zero-copy parser, an IAC-escaping writer, an option
negotiator, a ring buffer shared by one writer and one reader, a line reader, a server with an accept
semaphore, the MSDP data format and a word wrapper. This project models those parts in Dafny and proves
what they do, over all inputs, all ways of cutting a stream, all interleavings and all configurations.
`dafny verify dfyconfig.toml` checks everything.

## How it is organised

Code that changes state is modelled by classes and loops, each proved against a function that says what
it computes; what the library promises is then proved of those functions.

- **Stream codec.** `Telnet`, `Automaton` (the byte-at-a-time meaning of a stream), `Tokens` (its grammar), `Spans` (zero-copy
  runs), `Buffers`, `Parsing` (the parser), `Codec` (the encoders), `Chunks` (event limits), `Aliasing`
  (events that share one buffer), `Session` (the round trip), `Writer` (the write half).
- **Negotiation.** `Options` (the negotiator), `Peers` (two endpoints and two FIFO channels, and the
  projection onto one option in one direction), `Agreement` (safety and settling), `Handshake` (two
  connections opening), `Reports` (terminal type and window size), `Conns` (the negotiating half of a connection), `Exchange` (all of it on bytes
  cut anywhere), `Endpoints` (the read and negotiating halves together).
- **Ring buffer.** `Bits` (masks and rounding up), `Rings` (one thread), `Spsc` (one writer, one reader,
  one step per load, byte and store).
- **Reading.** `Lines` (what ReadLine computes), `ReadSide` (the read half), `EndToEnd` (from one side's
  writes to the other side's lines).
- **The rest.** `Msdp`, `MsdpCode`, `MsdpScan` (when unmarshalling fails or does not return) and `MsdpText` (what it
  accepts and what that means), `Wrap`, `Server`.

## Main results

1. The slicing parser is the automaton cut off at 64 runs, 16 commands and 8 subnegotiations, whatever
   the input and the state; its final state is right even when events are dropped
   (`Parsing.Parser.Parse`). And the automaton is the grammar: every stream is whole tokens and an unfinished
   one, and says exactly what its whole tokens say (`Tokens.Tokenized`, `Tokens.StreamDecodes`).
2. A session arrives exactly if and only if SendCommand was used for the four negotiation commands only, no
   chunk passes an event limit and every payload is one that framing preserves (`Session.SessionRoundTrip`);
   40 bytes is the largest chunk length that can never lose anything, 48 for commands and 128 for data
   (`Chunks.FortyIsTheBound`, `Chunks.BoundsAreExact`). When the
   call returns an event still reads as it was appended if and only if no later payload of the call
   disagrees with it (`Aliasing.EventIntactExactly`, `Parsing.Parser.Parse`).
3. What successful flushes sent, followed by what is buffered, is always the concatenation of the encodings
   accepted so far. What the network has is longer by exactly the bytes that failed flushes sent and that
   are sent again, so the two are equal if and only if there are none (`Writer.WriteHalf.SentExactly`).
   The output buffer grows under an exact condition on each call (`Writer.WriteHalf.Write`).
4. Two negotiators, all 256 options, both directions, every run: at most two messages in flight per option
   and direction, agreement at rest, and every order of deliveries ends in the same states after the same
   number of steps (`Agreement`). IsNegotiating is false at both ends of an option exactly when nothing about
   it is in flight (`Agreement.NegotiatingExactly`), and a request made at rest is granted
   (`Agreement.RequestIsGranted`). The same on bytes, with data in between and reads cut anywhere
   (`Exchange.SafetyOnTheWire`).
5. Two connections back to back end with the options their configurations ask for, after exactly three
   commands per enabled option (`Handshake.HandshakeCompletes`, `Exchange.HandshakeOnTheWire`). What a
   configuration does not enable stays off whatever a peer sends (`Conns.DisabledIsRefused`).
6. The ring is a bounded queue across every wrap of its 32-bit indices, for one thread
   (`Rings.Ring`) and for every interleaving of a writer and a reader (`Spsc.DeliveredIsPrefixOfAccepted`), in
   which each call moves exactly what had room, or was waiting, at some moment of it
   (`Spsc.WriteAcceptsExactly`, `Spsc.ReadDeliversExactly`).
7. MSDP values survive printing in any map order and parsing if and only if they are representable, which
   is spelled out (`MsdpText.RoundTrip`); what the parser accepts always is (`MsdpText.ParsedRoundTrips`).
   Unmarshalling gives a map if and only if the data is a spelling of it (`MsdpText.UnmarshalsExactly`); whether it
   fails or never returns is decided by a flat scan with a bracket stack (`MsdpScan.ReturnsExactly`).
8. ReadLine returns the lines of the stream under exact conditions (`Lines.ReadLineIsExact`,
   `Lines.ReadAllSplitsLines`), and so from one application to the other (`EndToEnd.LinesArrive`).
9. For every text WordWrap keeps the runes in order, fits the width exactly when the words do and uses the
   fewest lines (`Wrap.WordWrapIsOptimal`); it keeps the words apart under an exact condition
   (`Wrap.WordsKeptExactly`).
10. Permits are conserved over every interleaving of the accept loop, the handlers and a closing call
    (`Server.PermitsConserved`); which connections Close reaches, and when it returns, are exact
   (`Server.CloseReachesAllExactly`, `Server.CloseReturnsIfServing`).

## Where the code differs from what is said about it

The model follows the code. In each case a member shows the difference.

- parser.go:150 calls IAC x inside a subnegotiation an escaped IAC, but both bytes are stored, so escaping
  a payload is not undone: `Codec.EscapedPayloadIsNotUndone`; exactly which payloads survive:
  `Codec.FramingIsExact`.
- All subnegotiation events of one call are views of one buffer, and are handled after the parse. The bytes
  an event had when it was appended are its snapshot; exactly when they are still there at return:
  `Aliasing.EventIntactExactly`. A window size misread for that reason: `Endpoints.WindowSizeIsMisread`.
- Events beyond 64, 16 and 8 in one call are dropped without notice: `Chunks.DeliveredIsPrefix`,
  `Chunks.LongChunkLoses`.
- options.go:89 claims the Q method of RFC 1143. A WILL or DO received in WANTNO is answered here and not in
  section 7 of the RFC, which counts it as the peer's error: `Options.FollowsRfc`. Two such negotiators never
  get there: `Agreement.ConflictNeverReached`.
- The parser's diagram in DESIGN.md:85-91 omits the option state and the escaped IAC of plain data.
- README.md:99 says that output buffers do not grow. They do: a doubled IAC or a large subnegotiation can
  be appended past the capacity. Inputs for every size: `Writer.BuffersAreOutgrown`; exactly when:
  `Writer.WriteHalf.Write`, `Writer.WriteHalf.SendCommand`, `Writer.WriteHalf.SendSubnegotiation`.
- The doubled bytes of a payload also spoil window sizes: they arrive if and only if nothing but 255 follows the first
  255 among their four bytes, `Reports.WindowSizeArrives`; a window 255 wide does not, `Reports.WideWindowIsMisread`.
- README.md:100 speaks of escaping in place. EscapeIAC with the source at the front of its destination
  overwrites what it has yet to read: it escapes correctly if and only if nothing but IAC follows the first
  IAC, `Codec.InPlaceExactly`, and can run past the end of a destination that is large enough,
  `Codec.EscapeInPlace`.
- A ring of power-of-two size n holds n - 1 bytes, so a network read that fills a buffer of that size loses a
  byte: `EndToEnd.PlainReadFits`.
- ReadLine forgets a pending CR when a read brings no data, and pushes what follows an LF behind newer data:
  `Lines.ReadLineIsExact` (exactly when each matters), `Lines.OrderIsKeptUpTo1024`.
- The MSDP array loop does not end on an element that starts with VAR or TABLE_CLOSE. Inputs:
  `Msdp.ArrayWithoutProgress`; exactly which data: `MsdpScan.ReturnsExactly`; which marshalled maps:
  `MsdpScan.MarshalledHangsExactly`. A string does not stop at TABLE_OPEN or ARRAY_OPEN, hence the condition on
  arrays in `Msdp.Representable`.
- server.go:194 says that Close shuts down all active connections. A run that ends with Close returned and a
  handler running: `Server.HandlerOutlivesClose`. It reaches them all if and only if, when it takes its list,
  no handler is between its start and its registration and the accept loop has no connection in hand:
  `Server.CloseReachesAllExactly`.
- Close waits for the accept loop even when there is none: on a server that does not serve (not yet, or because
  ListenAndServe returned early) it blocks, `Server.CloseWithoutServing`. Exactly when it can return:
  `Server.CloseReturnsIfServing`.
- utils.go:31 says that WordWrap preserves words. A word without width that begins a line is run together with
  the next: `Wrap.WidthlessWordIsMerged`; exactly when words stay apart: `Wrap.WordsKeptExactly`.

## Model

| member | source | states |
|---|---|---|
| Automaton.RunConcat | parser.go:85-162 | running the automaton over a concatenation is running it twice, from any state and at any split point |
| Tokens.TokenDecodes | parser.go:94-155 | a byte, IAC IAC, IAC and a single-byte or unknown command, a negotiation, a whole frame: each decodes to exactly what it says, and back to StateData; a skipped command leaves everything as it was |
| Tokens.FrameStartDecodes | parser.go:132-154 | a frame begun says nothing yet, and its payload is the first 512 of the bytes it carries, IAC pairs included |
| Tokens.Tokenized | parser.go:90-156 | every stream is a sequence of whole tokens followed by an unfinished one |
| Tokens.StreamDecodes | parser.go:85-162 | however a stream is read so, the output is what the whole tokens say and the state that of the unfinished one |
| Automaton.PayloadBounded | parser.go:64 | the payload never exceeds 512 bytes, in the buffer and in every event |
| Automaton.StorageHoldsPayload | parser.go:61-66 | the payload is always the front of the 512-byte storage |
| Automaton.DeliveredPayloadIntact | parser.go:143-154 | the simplest case of Aliasing.PayloadIntactExactly: a payload delivered before the end of a call is still in the storage at its end when the rest of the call accumulates no payload byte |
| Automaton.EventsArePaidFor | parser.go:184-196 | each command costs three input bytes and each subnegotiation five, up to what the state had already consumed |
| Automaton.SoundStays | parser.go:111-131 | from a sound state only WILL, WONT, DO and DONT are ever reported as commands |
| Aliasing.StorageIsOverlay | parser.go:114-154 | the storage after any bytes is the storage before them with every payload begun or continued in them, complete or not, written over its front in turn |
| Aliasing.PayloadIntactExactly | parser.go:143-154 | whatever follows a delivered payload, the front of the storage still reads as it if and only if at each position the last later payload to reach it agrees |
| Aliasing.EventIntactExactly | parser.go:191-196 | event k of a call still reads as it was appended, when the call returns, if and only if no payload after it in the call disagrees at a position it is the last to reach |
| Aliasing.FrameOverwritesStorage | parser.go:114-154 | a frame writes its received payload over the front of the storage and changes nothing else |
| Aliasing.SecondFrameOverwritesFirst | parser.go:191-196 | the case of two whole frames in one call, with what the first event reads as: its payload with the second written over its front |
| Spans.DataSpans | parser.go:164-182 | the recorded runs are nonempty, in order, inside the input, and no two touch |
| Spans.SpansAreTheData | parser.go:90-103 | flattening the runs gives the automaton's data stream |
| Spans.SpansCoverData | parser.go:94-110 | a position is in some run if and only if its byte is plain data, so the runs are maximal |
| Spans.SpansAreSpaced | parser.go:164-182 | n bytes contain at most (n + 1) / 2 runs |
| Buffers.StaticBuffer.Write | buffer.go:255-269 | appends the longest part that fits, reports its length, and leaves the storage behind it as it was |
| Buffers.StaticBuffer.WriteByte | buffer.go:272-282 | appends the byte, or reports failure and changes nothing, exactly when the buffer is full |
| Buffers.StaticBuffer.Advance | buffer.go:302-309 | the first n bytes go, all of them when there are no more, the rest moving to the front in place; exactly a negative n panics, and changes nothing |
| Parsing.ParseResult.AppendData | parser.go:165-182 | the recorded runs stay the first 64 of all runs, adjacent ones coalesced |
| Parsing.ParseResult.AppendCommand | parser.go:184-189 | the recorded commands stay the first 16 |
| Parsing.ParseResult.AppendSubnegotiation | parser.go:191-196 | the recorded subnegotiations stay the first 8, each a view of the shared storage with the bytes it had on appending |
| Parsing.PendingStep | parser.go:90-109 | the flushed runs and the run begun at dataStart stay, byte by byte, the data runs of the automaton |
| Parsing.TraceIsRun | parser.go:91-156 | byte-by-byte bookkeeping gives the automaton's state, storage, runs and output for every prefix |
| Parsing.Parser.constructor | parser.go:62-66 | a new parser is in StateData with an empty payload and 512 bytes of its own storage |
| Parsing.Parser.Reset | parser.go:69-76 | a reset parser is in the state of a new one |
| Parsing.Parser.ParseByte | parser.go:94-155 | one turn of the byte loop is one step of the automaton (which Tokens.StreamDecodes determines), with its events appended under the limits |
| Parsing.Parser.Parse | parser.go:85-162 | for every input and state: the state, storage and output of the automaton (which Tokens.StreamDecodes determines), cut to the first 64 maximal runs, 16 commands and 8 subnegotiations; and each event reads as its snapshot on return if and only if the rest of the call agrees with it |
| Codec.EscapeConcat | parser.go:201-221 | escaping distributes over concatenation |
| Codec.EscapeLength | parser.go:202-207 | escaped length is length plus number of IACs; IAC-free bytes are unchanged |
| Codec.EscapeIAC | parser.go:201-221 | with src and dst apart: writes the escaped bytes over the front of dst, or returns minus the size needed and changes nothing |
| Codec.EscapeInPlace | parser.go:201-221 | with src at the front of dst: from the first IAC on everything written is IAC; exactly when that runs past the end; or minus the size needed and no change |
| Codec.InPlaceExactly | parser.go:201-221 | escaping in place gives the escaped bytes if and only if nothing but IAC follows the first IAC |
| Codec.BuildCommand | parser.go:225-233 | writes IAC cmd option over the front of dst, or returns -3 and changes nothing |
| Codec.BuildSubnegotiation | parser.go:237-272 | writes the whole frame over the front of dst, or returns minus its size and changes nothing; the size is five more than the payload and its IACs |
| Codec.ParseEscaped | parser.go:94-110 | escaped data decodes to the data and leaves the parser unchanged |
| Codec.ParsePayload | parser.go:136-154 | inside a subnegotiation the escaped bytes themselves are accumulated, up to 512, and produce no event |
| Codec.ParseFrame | parser.go:114-154 | a frame gives exactly one event with the first 512 bytes of the escaped payload, whatever the payload contains |
| Codec.ParseCommand | parser.go:111-130 | IAC cmd option decodes to that command if and only if cmd is WILL, WONT, DO or DONT |
| Codec.FramingIsExact | parser.go:149-153 | a payload arrives unchanged if and only if it has at most 512 bytes and no IAC, or exactly 512 with only IACs from the first IAC on |
| Codec.PlainPayloadArrives | parser.go:64 | an IAC-free payload arrives unchanged if and only if it has at most 512 bytes |
| Codec.EscapedPayloadIsNotUndone | parser.go:149-153 | the payload IAC arrives as two bytes |
| Chunks.DeliveredIsPrefix | parser.go:177-195 | a call delivers a prefix of each of the three streams, and all of them exactly when no limit is passed |
| Chunks.ChunkingIsExact | parser.go:85-196 | over successive calls nothing is lost if and only if no chunk passes a limit; the final state never depends on the cuts |
| Chunks.ShortChunksFit | parser.go:23-27 | from any state 128, 48 and 40 bytes bound the runs, commands and subnegotiations by their limits |
| Chunks.ChunkingInvariance | parser.go:85-196 | any two ways of cutting a stream into chunks of at most 40 bytes give the same output and state |
| Chunks.LongChunkLoses | parser.go:191-196 | for every length above 40 there is a state and a chunk that loses a subnegotiation |
| Chunks.FortyIsTheBound | parser.go:23-27 | all chunks of a length fit from all states if and only if the length is at most 40 |
| Chunks.BoundsAreExact | parser.go:23-25 | chunks of a length lose no data from any state exactly up to 128 bytes, and no commands exactly up to 48 |
| Session.ParseCall | conn.go:363-454 | the encoding of one call decodes to what it should bring if and only if it is no SendCommand of anything but WILL, WONT, DO and DONT; then it returns to StateData |
| Session.ParseWire | conn.go:363-485 | the encoding of any calls decodes to what they should bring if and only if none of them is such a SendCommand |
| Session.ArrivedIsSent | conn.go:426-454 | what arrives is what was sent if and only if every payload survives framing |
| Session.SessionRoundTrip | conn.go:363-485 | parsing the wire bytes of any calls, cut anywhere, gives exactly what was sent if and only if SendCommand sent only the four commands, no chunk passes a limit and every payload survives |
| Session.SmallSessionsRoundTrip | conn.go:363-485 | with IAC-free payloads of at most 512 bytes and chunks of at most 40, if and only if SendCommand sent only the four commands |
| Writer.Network.Write | conn.go:476 | all bytes are sent, or a prefix of them with an error |
| Writer.WriteHalf.SentExactly | conn.go:472-485 | the network has exactly what was flushed, and with the buffer exactly the stream, if and only if no failed flush sent a byte |
| Writer.BuffersAreOutgrown | conn.go:392-395 | for every buffer size: one IAC outgrows a nearly full buffer, and a frame as long as the buffer outgrows an empty one |
| Writer.WriteHalf.constructor | conn.go:130-132 | a new write half is empty, with the capacity asked for, or 65536 |
| Writer.WriteHalf.Append | conn.go:392 | bytes go to the end of the buffer, which grows exactly when they do not fit, and to the end of the stream |
| Writer.WriteHalf.FlushLocked | conn.go:472-485 | success sends and empties the buffer; failure keeps the whole buffer although a prefix may have been sent, which is counted; the stream is unchanged |
| Writer.WriteHalf.Write | conn.go:363-399 | on either path the stream grows by the escaped bytes accepted, whose number is returned, up to a failed flush; what fits is added without a flush and cannot fail; how full the buffer is after it; it outgrows its capacity exactly when an IAC finds it one short of full (or it holds one byte) |
| Writer.WriteHalf.PutByte | conn.go:387-396 | one byte is accepted, escaped: into a buffer with room without a flush, into a full one after flushing it; nothing is accepted when that fails; the capacity grows exactly for an IAC with room for one byte |
| Writer.WriteHalf.SendCommand | conn.go:410-424 | the stream grows by the command, or by nothing on error; a command that fits is added without a flush and cannot fail, any other follows a flush of all that was buffered; the capacity grows exactly when it was below three |
| Writer.WriteHalf.SendSubnegotiation | conn.go:426-454 | the same for a whole frame; the capacity grows exactly when the frame is longer |
| Writer.WriteHalf.Run | conn.go:363-485 | any calls followed by a flush put exactly their encodings on a reliable network |
| Options.FollowsRfc | options.go:110-199 | the handlers answer as section 7 of RFC 1143 with empty queues, except that a WILL or DO in WANTNO is refused where the RFC sends nothing; in the queue states they do nothing |
| Agreement.NegotiatingExactly | options.go:52-56 | over every run, IsNegotiating is false of an option at both ends if and only if nothing about that option is in flight in either direction |
| Options.Option.HandleWill | options.go:110-130 | new state and reply for a received WILL, as the table that Options.FollowsRfc determines; the flag is set if and only if the state changed |
| Options.Option.HandleWont | options.go:133-153 | new state and reply for a received WONT, as the table that Options.FollowsRfc determines; the flag is set if and only if the state changed |
| Options.Option.HandleDo | options.go:156-176 | new state and reply for a received DO, as the table that Options.FollowsRfc determines; the flag is set if and only if the state changed |
| Options.Option.HandleDont | options.go:179-199 | new state and reply for a received DONT, as the table that Options.FollowsRfc determines; the flag is set if and only if the state changed |
| Options.Negotiator.constructor | options.go:65-71 | 256 separate options, all off |
| Options.Negotiator.Reset | options.go:74-85 | all options off |
| Options.Negotiator.Handle | options.go:90-107 | the option named changes as its handler says and no other; the flag is set if and only if it changed; WILL and DO in WANTNO are refused; any other command does nothing |
| Options.Negotiator.RequestEnable | options.go:202-213 | WILL is to be sent and our side becomes WANTYES, exactly when it was off; no other option changes |
| Options.Negotiator.RequestDisable | options.go:216-227 | WONT and WANTNO, exactly when our side was on |
| Options.Negotiator.RequestPeerEnable | options.go:230-241 | DO and WANTYES, exactly when the peer's side was off |
| Options.Negotiator.RequestPeerDisable | options.go:244-255 | DONT and WANTNO, exactly when the peer's side was on |
| Peers.ProcessReacts | conn.go:311-336 | processing a command changes one side of one option only, and replies on the opposite kind of message of that option only |
| Peers.DeliverProjects | options.go:90-107 | a delivery is a delivery on the command's own link and leaves every other link as it was |
| Peers.RequestProjects | options.go:202-255 | a request is a request on its own link and leaves every other link as it was |
| Peers.StepProjects | options.go:90-255 | every global step is on every link a step of that link or nothing |
| Peers.DeliveryMovesOneLink | options.go:90-107 | exactly one link moves in a delivery |
| Peers.NegotiatedIsChanges | conn.go:328-334 | over every run, OptionsNegotiated has grown by the number of deliveries that changed one of the endpoint's option states |
| Peers.TotalCheaper | options.go:90-107 | a step that costs one link one unit costs the whole configuration one |
| Agreement.OfferConsistent | options.go:110-153 | delivering a WILL or WONT keeps the sixteen consistent configurations, uses up one delivery, keeps the foretold outcome, and never meets WANTNO with a WILL |
| Agreement.AnswerConsistent | options.go:156-199 | the same for DO and DONT |
| Agreement.RequestConsistent | options.go:202-255 | requests keep the consistent configurations |
| Agreement.RunGood | options.go:90-255 | every run from a configuration with all links consistent ends in one |
| Agreement.NegotiationSafety | options.go:90-255 | from all options off, over every run: at most two messages in flight per option and direction, only the four states, nothing in flight exactly when neither end is pending, and then agreement |
| Agreement.ConflictNeverReached | options.go:120-123 | over every run no WILL or DO is delivered to a side in WANTNO |
| Agreement.NegotiationSettles | options.go:110-199 | without requests each delivery lowers the measure by exactly one and keeps every link's outcome |
| Agreement.LinkSettles | options.go:110-199 | the measure of a link is at most three and zero exactly at rest, where both ends are on or both off as foretold |
| Agreement.RestIsForetold | options.go:110-199 | any complete delivery takes exactly the measure's number of steps and ends as foretold |
| Agreement.DeliveryOrderIsIrrelevant | options.go:110-199 | two complete deliveries in different orders have the same length and end in the same states |
| Agreement.RequestIsGranted | options.go:202-255 | a request made while nothing about its option is in flight ends, for every order of deliveries, with both ends on or off as it asked |
| Handshake.SupportedAreOffered | conn.go:255-264 | the options supported are exactly those it can offer |
| Handshake.OffersSelected | conn.go:156-172 | each enabled option is offered exactly once and nothing else is said |
| Handshake.OpeningOnCourse | conn.go:126-172 | the opening configuration satisfies the handshake's invariant |
| Handshake.ProcessCounts | conn.go:328-334 | OptionsNegotiated stays the number of sides that are on |
| Handshake.LinkAdvances | options.go:110-176 | a delivery takes a link to the next stage of offer, agreement, confirmation |
| Handshake.DeliveryOnCourse | conn.go:311-336 | every delivery keeps the invariant and brings the end one step nearer |
| Handshake.HandshakeCompletes | conn.go:156-172 | for all configurations and delivery orders: three commands per enabled option, then each side has on what it enables, knows what its peer enables, and both have counted the same number |
| Conns.OpeningIsInitialOffers | conn.go:156-172 | the commands among the opening calls are the opening offers |
| Conns.OpeningSubnegotiation | conn.go:160 | the opening brings no data, and the window size exactly when NAWS is enabled |
| Conns.SizeFollowsOffer | conn.go:160 | the window size comes directly behind the offer of NAWS |
| Conns.OffersInOrder | conn.go:157-170 | the offers come in the fixed order |
| Conns.DisabledIsRefused | conn.go:314-319 | an option not enabled stays off on our side whatever commands came, and DO for it is answered by exactly WONT and changes nothing |
| Conns.UnsupportedIsRefused | conn.go:321-326 | an unsupported option stays off on the peer's side whatever commands came, and WILL for it is answered by exactly DONT and changes nothing |
| Conns.SupportedIsAccepted | conn.go:255-264 | WILL for a supported option that is off, enabled here or not, is agreed to |
| Conns.EnabledIsAccepted | conn.go:266-299 | DO for an enabled option that is off is agreed to |
| Conns.ProcessNext | conn.go:311-336 | one more command is processed by one more step of the endpoint, its reply behind the earlier ones |
| Conns.Conn.constructor | conn.go:126-154 | a new connection is the fresh endpoint, on any network; on one that loses nothing its opening has been sent |
| Conns.Conn.NegotiateInitial | conn.go:156-172 | the offers, and the window size after NAWS, in the fixed order, without those whose sending failed; all of them, and flushed, on a network that loses nothing |
| Conns.Conn.HandleCommands | conn.go:311-336 | on any network the command loop takes the endpoint through all commands in order, and the stream grows by its replies without those whose sending failed; by all of them on a network that loses nothing |
| Conns.Conn.HandleCommand | conn.go:314-334 | one command is processed as the endpoint of module Peers does (see Conns.DisabledIsRefused for its refusals), its reply queued unless that fails, the change counted |
| Conns.Conn.HandleSubnegotiation | conn.go:346-358 | a terminal type after an IS byte, or a window size of four bytes or more, is taken over; nothing else changes but the count |
| Reports.ReportsAreRead | conn.go:456-464 | every window size that SendNAWS writes is read back as it was, and every terminal type but the empty one |
| Reports.OnlyReportsAreRead | conn.go:346-358 | nothing but a terminal type behind a zero byte and a window size of four bytes changes anything |
| Reports.WindowSizeArrives | conn.go:456-459 | through framing and parser a window size arrives if and only if nothing but 255 follows the first 255 in it |
| Reports.WideWindowIsMisread | conn.go:456-459 | a window 255 wide and 24 high arrives as 65280 high |
| Reports.TypeArrives | conn.go:461-464 | a terminal type arrives if and only if, with its zero byte, framing preserves it |
| Conns.Conn.SendNAWS | conn.go:456-459 | sends the two sizes, high byte first, or nothing if that fails |
| Conns.Conn.SendTType | conn.go:461-464 | sends the type behind a zero byte, or nothing if that fails |
| Exchange.ArrivalIsBatch | conn.go:301-336 | parsing and processing one read is delivering the commands in it, and the replies' bytes carry the replies |
| Exchange.BatchIsRun | conn.go:311-336 | processing k commands together is k single deliveries |
| Exchange.EventIsRun | conn.go:301-344 | every step on bytes is a run of the command-level protocol |
| Exchange.BytesRefineCommands | conn.go:301-344 | so is every run |
| Exchange.OpenedIsOpening | conn.go:156-172 | the opening bytes carry exactly the opening offers, window size included |
| Exchange.SafetyOnTheWire | options.go:90-255 | negotiation safety on bytes, with data among the commands and reads cut anywhere that drop no command: agreement whenever nothing about the option is in flight |
| Exchange.HandshakeOnTheWire | conn.go:156-172 | the handshake's result on bytes, whatever the applications write and however reads are cut without dropping a command, after exactly three commands received per enabled option |
| Endpoints.Endpoint.ProcessReadLocked | conn.go:301-344 | the whole of one call, on any network: data to the ring, commands to the negotiator with what could be sent of the replies on the write stream, subnegotiations handled as they read after the parse |
| Endpoints.Endpoint.Arrival | conn.go:301-336 | on a network that loses nothing, one call is one arrival of module Exchange |
| Endpoints.ViewsExactly | conn.go:338-343 | the subnegotiations handled are those delivered if and only if each of them is intact |
| Endpoints.LastReportStays | conn.go:338-343 | subnegotiations are handled in order: what the last report of its kind says stays |
| Endpoints.WindowSizeIsMisread | conn.go:352-358 | a window size followed by another payload in the same read is taken for a different one |
| Bits.AndMask | buffer.go:118 | masking with 2^k - 1 is the remainder by 2^k |
| Bits.WrapKeepsSlot | buffer.go:118 | wrapping at 32 bits does not disturb that remainder |
| Bits.SmearedValue | buffer.go:73-79 | the five shifts fill every bit below the highest |
| Bits.RoundUp | buffer.go:72-79 | the bit smearing computes the least power of two that is at least the size |
| Rings.SlotFromTail | buffer.go:117-119 | writing after the tail is writing behind the last unread byte, whatever the indices have wrapped to |
| Rings.HoldsPut | buffer.go:117-119 | a byte stored just past an unfilled window extends it and disturbs none of its bytes |
| Rings.ContiguousPart | buffer.go:181-187 | up to the array's end the waiting bytes are a plain slice |
| Rings.Ring.constructor | buffer.go:68-84 | empty, of the least power-of-two size at least the one asked for, or 4096; for every size up to 2^32 |
| Rings.Ring.Len | buffer.go:95-97 | the number of bytes waiting, through index overflow |
| Rings.Ring.Write | buffer.go:106-125 | the queue grows by what fits; the flag says when not all did |
| Rings.Ring.Read | buffer.go:128-143 | the queue's front moves to the front of p, as much as p takes; the flag says when there was nothing |
| Rings.Ring.WriteByte | buffer.go:146-155 | the byte joins the queue exactly when it is not full |
| Rings.Ring.ReadByte | buffer.go:158-167 | the first byte leaves the queue exactly when there is one |
| Rings.Ring.Peek | buffer.go:171-188 | for n >= 0 and sizes below 2^32 a prefix of the queue as a slice of the array, short only at the queue's or the array's end; otherwise the range that 32-bit arithmetic gives, and exactly when its bounds panic |
| Rings.Ring.Discard | buffer.go:191-202 | the first n bytes go, or all, or none for n <= 0 |
| Rings.Ring.Bytes | buffer.go:212-223 | a fresh copy of the queue |
| Spsc.NoOverwrite | buffer.go:117-119 | however stale the writer's view of the reader, a store hits no slot of a published and unreleased byte |
| Spsc.StepKeepsInv | buffer.go:106-143 | every single load, byte copy and store of either side keeps the invariant |
| Spsc.DeliveredIsPrefixOfAccepted | buffer.go:106-143 | over every interleaving and index wrap, what was delivered is a prefix of what was accepted, the rest is in the slots, and at most size - 1 bytes are waiting; how much each call moves is Spsc.WriteAcceptsExactly and Spsc.ReadDeliversExactly |
| Spsc.WriteAcceptsExactly | buffer.go:106-125 | whatever the reader does meanwhile, a whole Write accepts exactly as much of the front of p as had room at some moment of the call |
| Spsc.ReadDeliversExactly | buffer.go:128-143 | whatever the writer does meanwhile, a whole Read delivers exactly the first of the bytes that were waiting at some moment of the call, as many as asked for or all |
| Spsc.WriteAlone | buffer.go:106-125 | with no step of the reader in between, Write does what it does on the sequential ring |
| Spsc.ReadAlone | buffer.go:128-143 | with no step of the writer in between, Read does what it does on the sequential ring |
| Spsc.WriteCanFinish | buffer.go:106-125 | from every reachable state a write can be finished by the writer's steps alone |
| Spsc.ReadCanFinish | buffer.go:128-143 | and a read by the reader's |
| Msdp.Parse | mud.go:97-156 | consumes at most what there is, and nothing exactly on empty data or a first byte VAR, TABLE_CLOSE or ARRAY_CLOSE |
| MsdpText.ValueParses | mud.go:97-156 | parsing a written value, followed by something it can stop at, gives what it means and stops at its end |
| MsdpText.PairsParse | mud.go:109-132 | written entries take the table loop and the top-level loop from their start to their end, the last of several for a key counting |
| MsdpText.ElemsParse | mud.go:133-147 | written elements take the array loop to its end |
| MsdpText.OkIsRepresentable | mud.go:97-156 | what a well spelled value means is representable |
| MsdpText.RoundTrip | mud.go:41-95 | for every map and every enumeration order at each table, unmarshalling the marshalled map gives it back if and only if it is representable |
| MsdpText.ParsedRoundTrips | mud.go:74-95 | whatever unmarshals is representable, and marshals in any order to something that unmarshals to the same |
| Msdp.ArrayWithoutProgress | mud.go:136-143 | inputs on which unmarshalling does not return, with anything behind them |
| MsdpScan.ReturnsExactly | mud.go:74-156 | for all data: unmarshalling does not return if and only if the bracket scan meets VAR or TABLE_CLOSE where an array expects an element, before anything malformed; it reports an error if and only if the scan meets something malformed first, or ends within a bracket |
| MsdpText.UnmarshalsExactly | mud.go:74-156 | for all data and maps: unmarshalling gives the map if and only if the data spells it, keys that repeat counting once, for the last; strings in arrays may lack their VAL and the data may end behind a key |
| MsdpText.MarshalledIsSpelling | mud.go:41-71 | what is marshalled spells the map, representable or not, with VAL before every string |
| MsdpScan.ValueAgrees | mud.go:97-156 | for every position the recursive parser's outcome says where the scan goes on, that it is past an error, or that it is stuck |
| MsdpScan.MarshalledHangsExactly | mud.go:41-71 | for a map in which nothing is cut short and every enumeration order, unmarshalling what was marshalled does not return if and only if some array holds a string with VAR or TABLE_CLOSE, or a table right after a string |
| MsdpCode.MarshalMSDP | mud.go:41-49 | the bytes are the map printed in some enumeration order; they unmarshal to it if and only if it is representable, and when nothing is cut short they hang the unmarshaller if and only if the map has a trap |
| MsdpCode.WriteValue | mud.go:51-71 | appends the value printed in some enumeration order of each table in it |
| MsdpCode.ParseValue | mud.go:97-156 | the recursive parser with its index loops is the parsing function |
| MsdpCode.UnmarshalMSDP | mud.go:74-95 | the top-level loop is the unmarshalling function; it fails, or does not return, if and only if the scan says so (and succeeds as MsdpText.UnmarshalsExactly says) |
| Lines.LineFromIsNext | conn.go:488-523 | whatever the reads bring, one call returns the bytes before the next LF without a final CR (unless forgotten) and leaves the bytes after it, those of its 1024-byte chunk pushed behind the rest of the buffer; without an LF, everything and an error |
| Lines.ReadLineIsExact | conn.go:488-523 | the final CR is removed if and only if no data-free read came between the two halves of a CR LF; the bytes after the LF are left in order if and only if pushing back keeps it |
| Lines.NoGapFinds | conn.go:516-518 | with no data-free read after a CR the CR is never forgotten, and this holds for the calls to come |
| Lines.LineConsumes | conn.go:488-523 | every successful call uses up bytes |
| Lines.FailsAtError | conn.go:519-521 | a call that fails has read up to the first read that brings an error and no data, and no further |
| Lines.ReadAllSplitsLines | conn.go:488-523 | successive calls return exactly the stream split at LF, however CR LF is cut between reads, when in each read every LF ends a 1024-byte block or is in the last one |
| Lines.ShortIsAligned | conn.go:491 | reads of at most 1024 data bytes meet that condition |
| Lines.LFBufferAligned | conn.go:506-508 | under that condition the push-back keeps the order, and the condition holds of what is left |
| Lines.LongBufferLosesOrder | conn.go:506-508 | for every length above 1024 some buffer is left out of order by the push-back |
| Lines.OrderIsKeptUpTo1024 | conn.go:506-508 | order is kept for all buffers of a length if and only if the length is at most 1024 |
| ReadSide.ReadHalf.constructor | conn.go:126-141 | an empty ring of the size asked for (65536 by default) rounded up, a new parser, no pending CR |
| ReadSide.ArrivalsAre | conn.go:231-235 | each read brings its own error flag, and the data of its bytes as the parser sees them behind all bytes before |
| ReadSide.ReadHalf.ProcessRead | conn.go:302-309 | the data part: the delivered data goes to the ring as far as it fits, and the events are left for what follows |
| ReadSide.ReadHalf.Fetch | conn.go:231-235 | one network read brings the next decoded data into the ring |
| ReadSide.ReadHalf.ReadLocked | conn.go:226-253 | the front of the ring, or of the next read's data; an error only when there is no data |
| ReadSide.ReadHalf.PushBack | conn.go:506-508 | what follows the LF goes behind what the ring holds, and always fits |
| ReadSide.ReadHalf.ReadLine | conn.go:488-523 | returns and leaves behind exactly what the loop function says, and never leaves a pending CR |
| EndToEnd.BufferedData | conn.go:304-309 | the data buffered from a read is a prefix of the data in it, whole exactly within the run limit and the ring's capacity |
| EndToEnd.BufferingIsExact | conn.go:226-253 | until a read only fails, the application's stream is the decoded one if and only if no read passes a limit |
| EndToEnd.PlainReadFits | conn.go:139-140 | a read of plain data is buffered whole if and only if it is no longer than the ring's capacity |
| EndToEnd.LinesArrive | conn.go:488-523 | one side's writes come out as their lines from the other side's ReadLine, however the wire is cut, under the conditions on reads |
| Wrap.StringWidth | utils.go:62-76 | the loop adds zero for marks, two for runes of several bytes, one for the others |
| Wrap.WidthCounts | utils.go:62-76 | the width is the number of runes that are no marks plus the number of those that are outside ASCII |
| Wrap.WordWrap | utils.go:32-59 | the loop produces the lines of the wrapping function on the words of the text |
| Wrap.WrapIsGreedy | utils.go:41-57 | when no words are glued, the lines are the greedy groups joined by spaces |
| Wrap.FieldsAreWords | utils.go:40 | the words are nonempty, free of white space, and hold everything else of the text in order |
| Wrap.FieldsAreSeparated | utils.go:40 | the text is its words with white space before, behind and, not empty, between them: two runes share a word if and only if no white space lies between them |
| Wrap.WrapFits | utils.go:43 | whatever the words, every line fits if and only if every word does |
| Wrap.WrapKeepsRunes | utils.go:41-57 | whatever the words, the lines hold their runes in order |
| Wrap.GroupsKeepWords | utils.go:41-57 | no word is lost, repeated or moved |
| Wrap.GroupsAreFull | utils.go:43 | each group is as full as it can be: the next one's first word does not fit on it |
| Wrap.LinesFitExactly | utils.go:43 | every greedy group fits if and only if every word does |
| Wrap.GreedyIsOptimal | utils.go:41-57 | no way of cutting the words in order into fitting lines uses fewer |
| Wrap.WordWrapIsOptimal | utils.go:32-59 | for every text: the runes are kept in order, every line fits if and only if every word does, and no way of cutting the words into fitting lines has fewer |
| Wrap.WidthlessWordIsMerged | utils.go:48-53 | an input: a first word without width is run together with the next |
| Wrap.WordsKeptExactly | utils.go:31-57 | for all words: the lines are the words split into lines and joined by spaces if and only if no word without width that begins a line (the first, or behind a line already full) is followed by another |
| Server.StepKeepsInv | server.go:130-218 | every step of the loop, a handler or the closing call keeps the counting and shutdown invariant |
| Server.PermitsConserved | server.go:140-169 | over every interleaving the tokens are the handlers' and the loop's own, so at most the capacity live at once, and no release blocks |
| Server.LimitIsReached | server.go:140-160 | there is a run in which as many handlers live at once as the server was made for |
| Server.CountersAgree | server.go:157-169 | accepted is active plus closed plus exactly the updates half done |
| Server.CloseIsOrderly | server.go:195-218 | closeDone is closed at most once, exactly when the loop ends, and a nil return comes only after that |
| Server.LoopEndsAfterClosing | server.go:132-162 | once closing is signalled every loop step, a late start included, brings the end nearer, at most six away, and no other step moves the loop |
| Server.LoopCanStep | server.go:132-162 | a loop that has been started and not ended then always has a step it can take |
| Server.CloseReturnsIfServing | server.go:215-217 | a waiting Close can return without a later call of Serve if and only if serving was started |
| Server.CloseWithoutServing | server.go:85-92 | there is a run in which Close comes to wait and never returns unless serving is started |
| Server.CloseReachesAllExactly | server.go:204-213 | in every continuation all running handlers have been reached by Close if and only if, when it takes its list, no handler is between its start and its registration and the loop has no connection in hand |
| Server.HandlerOutlivesClose | server.go:194-218 | there is a run in which Close has returned nil and a handler is running |

## Left out

- Sockets, deadlines and real time: the network is a sequence of bytes with a plan of outcomes for writes, and a
  list of reads with error flags. Reads may be of any length, which includes those a scratch buffer limits.
- sync.Pool recycling and Free: buffers are fresh arrays of the requested length.
- Parsing.ParseResult: its arrays are sequences bounded by their limits; the pointer comparison of appendData is
  adjacency of index ranges of one input, so an event does not point into memory.
- Codec.EscapeIAC: a dst that overlaps src is covered when both start together (Codec.EscapeInPlace), not at other
  offsets.
- Codec.BuildSubnegotiation: a dst that overlaps the payload.
- The parser fields snEnabled and binaryMode: set by nothing but Reset, so they have no effect to model.
- Options: nil entries of the array, which NewNegotiator never leaves, and the two queue states, which nothing
  enters (the handlers' default branch for them is modelled).
- Rings.Ring.constructor: sizes above 2^32, for which the mask is cut to 32 bits and the smearing need not fill every
  bit. The same holds of Bits.RoundUp and ReadSide.ReadHalf.constructor. Free and chunkWriter are not modelled.
- Spsc: Peek, Discard, ReadByte and WriteByte by the two threads (the byte operations are reads and writes of
  length one), and memory models weaker than sequential consistency; Go's atomics are sequentially consistent.
- Writer: concurrent callers (each call holds the lock), and statistics.
- Exchange: a reply counts as sent when it is queued. The code flushes only when the application or a full buffer
  does, which delays deliveries but does not reorder them.
- Event callbacks: they change nothing that is modelled. The window size enters the opening as the four bytes that
  are sent. Counters other than OptionsNegotiated and Subnegotiations.
- Conn.Read beyond readLocked, and Conn.Close racing with reads and writes.
- ReadSide.ReadHalf.ProcessRead: only the data part of processReadLocked, on which ReadLine depends; the whole of it is
  Endpoints.Endpoint.ProcessReadLocked.
- MSDP: a value is a string, a table or an array; values with both flags set, nil pointers and int overflow of
  positions are not modelled. A slice of the data is the whole data and a position. Error texts are one outcome.
- Wrap: the Unicode tables (which runes are marks and which are white space are parameters).
- MsdpScan.MarshalledHangsExactly: maps with strings that cut short what is around them (keys or strings with
  structural bytes outside arrays, ARRAY_CLOSE in arrays, an array right after a string), where the enumeration order
  matters; for those MsdpScan.ReturnsExactly decides on the bytes.
- Server: several accept loops on one server, Stats as a call, and ListenAndServe's own listener; time limits of
  Shutdown are a step that may happen at any moment while it waits. A second Close returns at once and changes
  nothing.
- MCCP, GMCP, MSSP, MCP and MTTS, colours, padding, boxes and progress bars: thin over libraries, or formatting.
