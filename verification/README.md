# Verified model of the STOMP library

This project models the core of `pkg/stomp` and proves what it does, for all inputs and all runs.
It has three parts.

**The wire.** Frames are printed (`serialize`), cut out of a byte stream (`frameSplitter`,
`frameScanner`) and parsed (`deserialize`). The printer, the cutter and the parser are three
independent programs that have to agree through header escaping, decimal lengths and index
arithmetic. The main results:

- A frame survives printing, padding and parsing if and only if its command has no line feed,
  nothing in it has a carriage return, and no header string has a backslash directly before `n`
  or `c` (`Serializer.RoundTrip`).
- A text without carriage returns is accepted if and only if some blank line behind its first line
  has only lines with exactly one colon before it (`Acceptance.ParseTextExact`), and every buffer is
  cut, waited for or refused exactly as its lines say (`Acceptance.LinesRefused`,
  `Acceptance.BodyToNul`, `Acceptance.BodyOfLength`).
- A printed frame is cut at its end if and only if the length its headers declare fits its body
  (`WireFraming.FramingExact`).
- Any list of such frames, with any heartbeats around them, comes back from the scanner and the
  parser (`StreamRoundTrip.StreamComesBack`). When the stream arrives in pieces, the scanner gets
  through if and only if no piece ends inside a command or a header block, and then delivers the
  same list (`StreamRoundTrip.SentIsReceived`). For any bytes in any pieces, the scanner delivers
  a first part of what it would deliver from the whole stream; and if that gets through, the
  pieces do, and deliver all of it, if and only if every read leaves a buffer of line ends only or
  with a complete header block (`Streams.ChunkInvariance`).

**The broker's shared state.** The three mutually indexed subscription maps, the acknowledgement
ledger of each subscription and the transaction buffers are classes whose methods update them in
place, next to pure steps that say what each method does. The main results are about every
reachable state:

- The maps agree throughout a run if and only if every subscription fits the index it meets
  (`RegistryRuns.RunExact`); with fresh ids and the guard as written, if and only if nobody
  subscribes to a destination that has a subscriber (`RegistryRuns.FreshRunExact`). The same holds
  of the maps inside the broker (`BrokerRuns.BrokerConsistent`, `BrokerRuns.FreshBrokerConsistent`).
- A subscription's ledger depends on its own history only, and holds exactly the numbers which
  that history leaves outstanding in its mode (`RegistryRuns.LedgerOfRun`, `Ledger.LedgerExact`).
- Outside transactions, a run publishes exactly its SENDs with a destination, each once, in order
  (`BrokerRuns.PlainSendsPublished`). What a transaction holds and publishes depends on its own
  frames only, whatever else happens in between (`BrokerRuns.TransactionAlone`); a client's
  transaction object publishes once or not at all (`Client.TransactionPublishesOnce`).
- A MESSAGE survives the wire if and only if the publisher's keys survive lower-casing
  (`Acknowledgement.MessageFaithful`), and the ACK that answers it, printed, cut and parsed both
  ways, takes exactly its number off that subscription's ledger (`Acknowledgement.AckEndToEnd`).

**The heart-beat handshake.** After CONNECT and CONNECTED have crossed the wire, the two ends
agree if and only if the client offered anything or the broker offered nothing
(`Heartbeat.HandshakeAgrees`).

## How to read it

A string stands for a byte sequence, one character for one octet. Go's nil map and nil slice are
`None`. A failed bounds check or nil dereference of the Go runtime is an outcome of its own
(`Trap`, `Panic`, `TooFewParts`), and so is a call that never returns (`Hang`). Go's map and set
iteration order, the reads of a connection, the success of a write and generated ids are
parameters; the theorems hold for all of them. Each command and each split is one atomic step.
`frameSplitter` is three methods here: the line ends in front, the header loop (`ReadHead`) and the
body (`ReadBody`).

| file | models |
|---|---|
| `go_strings.dfy`, `sorting.dfy` | the parts of Go's `strings`, `strconv` and `sort` in use |
| `escaping.dfy`, `serializer.dfy` | `serializer.go`, `checkValidEscapes` |
| `frame_scanner.dfy` | `frame_scanner.go`, one buffer |
| `acceptance.dfy` | which bytes `serializer.go` and `frame_scanner.go` accept |
| `wire_framing.dfy`, `streams.dfy`, `stream_round_trip.dfy` | printer, scanner and parser together |
| `heartbeat.dfy` | the handshake in `broker.go`, `client.go`, `common.go` |
| `ack_token.dfy`, `ledger.dfy`, `registry.dfy`, `registry_runs.dfy`, `subscriptions.dfy` | `subscribe.go` |
| `transactions.dfy`, `broker.dfy`, `broker_runs.dfy` | `transaction.go`, the dispatch in `broker.go` |
| `client.dfy`, `acknowledgement.dfy` | SEND, transactions and ACK in `client.go`, MESSAGE in `broker.go` |

`dafny verify dfyconfig.toml` checks the project.

## Where the code departs from its comments

The model follows the code. Each departure has a theorem that says exactly when it matters.

- `unescape` replaces `\\` first, so it does not invert `escape` on a backslash before `n` or `c`
  (`Escaping.UnescapeInvertsEscape`, `Escaping.UnescapeLosesBackslashN`).
- `deserialize` drops carriage returns but slices the body with the length from before, so a
  frame with one never parses (`Serializer.CarriageReturnTraps`).
- A carriage return directly behind a frame spoils that frame
  (`StreamRoundTrip.CarriageReturnBehindFrame`).
- The splitter gives up, instead of waiting, on an incomplete command or header line
  (`StreamRoundTrip.SentIsReceived`).
- `addSubscription` tests the subscription where its map's comment asks for the destination, so a
  second subscriber displaces the first (`Registry.AddExact`, `Registry.GuardsAgree`,
  `RegistryRuns.SecondSubscriberDisplaces`). `Guard` has both readings; `Tables.AddSubscription`
  and the dispatch have the one as written.
- The dispatch passes on the `ack` header only when it is empty, so acknowledgements change
  nothing inside the broker (`BrokerRuns.ModeExact`, `BrokerRuns.AcksAreInert`). The ledger
  theorems are about the mode that `addSubscription` is given.
- In `client` mode an acknowledgement clears everything pending, not everything up to its number
  (`Ledger.ClientAck`), and traps when nothing was sent since the last one (`Ledger.ClientAckTraps`).
- COMMIT does not close its transaction (`Transactions.CommitsRepeat`).
- A publisher's own `ack` header displaces the broker's token (`Acknowledgement.PublisherDisplacesToken`).
- `sendMessage` lower-cases keys and so makes escapes of them: a key of two backslashes and `N`
  reaches the broker and does not reach the subscriber (`Acknowledgement.MessageFaithful`,
  `Acknowledgement.LowerCaseSpoilsKey`).
- Of content-length keys in different capitals, the splitter believes the one in small letters
  (`Client.SendWellFormed`) and a relayed MESSAGE keeps the one that the map yields last, so its
  body can be cut elsewhere (`Acknowledgement.MessageFramed`, `Acknowledgement.TwoLengthsDisagree`).
- A body that would end on the last index of 64 bits is waited for, and fails the bounds check
  with one more line end in front (`FrameScanner.DropEol`, `Streams.EdgeStopsPieces`).

## Model

| member | source | states |
|---|---|---|
| GoStrings.SplitOfJoin | pkg/stomp/serializer.go:71 | splitting at a byte recovers exactly the parts that were joined with it |
| GoStrings.JoinOfSplit | pkg/stomp/serializer.go:71 | splitting loses nothing |
| GoStrings.AtoiOfItoa | pkg/stomp/client.go:329 | printing and parsing a machine integer is the identity |
| GoStrings.AtoiExact | pkg/stomp/frame_scanner.go:64 | parsing accepts exactly the printed machine integers, with any zeros and a sign that fits |
| GoStrings.ItoaExact | pkg/stomp/client.go:329 | a printed number is its quotient by ten, printed, and one digit |
| GoStrings.ToLowerExact | pkg/stomp/broker.go:173 | lower-casing replaces every capital by its own small letter and keeps everything else |
| GoStrings.ReplaceByIndex | pkg/stomp/serializer.go:108-120 | replacing goes from one first occurrence to the next and copies what is between |
| Escaping.EscapeIsEncode | pkg/stomp/serializer.go:115-120 | the three replacement passes are a character-by-character encoder, on every string |
| Escaping.EscapeHidesDelimiters | pkg/stomp/serializer.go:115-120 | escaped text has no line feed and no colon, and a carriage return only if the original has one |
| Escaping.ColonsOnLine | pkg/stomp/serializer.go:24 | every printed header line splits at exactly one colon into its two encoded halves |
| Escaping.DecodeOnceOfEscape | pkg/stomp/serializer.go:115-120 | a one-pass decoder inverts the encoder on every string |
| Escaping.EscapeInjective | pkg/stomp/serializer.go:115-120 | different strings escape differently |
| Escaping.UnescapeIsSafe | pkg/stomp/serializer.go:108-113 | decoded text never has a backslash directly before `n` or `c` |
| Escaping.UnescapeInvertsEscape | pkg/stomp/serializer.go:108-120 | decoding undoes encoding exactly on strings with no backslash directly before `n` or `c` |
| Escaping.UnescapeMeetsDecodeOnce | pkg/stomp/serializer.go:108-113 | on encoded text the three passes agree with the one-pass decoder exactly on those strings |
| Escaping.UnescapeLosesBackslashN | pkg/stomp/serializer.go:108-120 | the smallest string that does not come back |
| Escaping.CheckValidEscapes | pkg/stomp/frame.go:258-271 | accepts exactly the strings whose every backslash opens one of the four sequences |
| Escaping.ValidEscapesExact | pkg/stomp/frame.go:258-271 | valid means: `n`, `r`, `c` or a backslash follows every backslash with an even number of them before it |
| Escaping.EscapeIsValid | pkg/stomp/frame.go:258-271 | `checkValidEscapes` accepts whatever `escape` produces |
| Sorting.SortedUnique | pkg/stomp/serializer.go:43-50 | an increasing listing of a key set is unique |
| Sorting.CanonicalOrder | pkg/stomp/serializer.go:43-50 | sorting forgets the order in which a map's keys were collected |
| Sorting.LexExact | pkg/stomp/serializer.go:48 | keys are ordered by their first difference, a prefix first |
| Serializer.GetSortedHeaderKeys | pkg/stomp/serializer.go:43-50 | returns the one increasing listing of the keys, however the map is ranged over |
| Serializer.Serialize | pkg/stomp/serializer.go:14-41 | writes the canonical bytes of the frame, independent of map order |
| Serializer.FrameObject.Deserialize | pkg/stomp/serializer.go:52-106 | fills the frame object with what the text parses to, and leaves it alone on failure |
| Serializer.FirstBlankLine | pkg/stomp/serializer.go:91-98 | the first empty line of printed text ends the headers, whatever the body holds |
| Serializer.CarriageReturnTraps | pkg/stomp/serializer.go:69-98 | text with a carriage return never parses; it fails the bounds check exactly when it would parse without |
| Acceptance.ParseTextExact | pkg/stomp/serializer.go:69-104 | text without carriage returns is accepted exactly when every line between the command and a blank line has one colon, and refused with an error otherwise |
| Acceptance.ParseTextSays | pkg/stomp/serializer.go:73-104 | an accepted text gives its first line, for every name the decoded value of the last line with it, and everything behind the blank line |
| Acceptance.LastNulExact | pkg/stomp/serializer.go:54-67 | the terminator is found exactly where a NUL and only line feeds end the buffer; line feeds alone count as empty |
| Serializer.ParsedIsFaithful | pkg/stomp/serializer.go:52-106 | every accepted frame is one that survives being printed again |
| Serializer.Relay | pkg/stomp/serializer.go:14-106 | a frame read off the wire is printed and read back unchanged by the next hop |
| Serializer.RoundTrip | pkg/stomp/serializer.go:14-106 | a frame comes back from printing, padding and parsing exactly when it is faithful |
| Serializer.WireInjective | pkg/stomp/serializer.go:14-41 | faithful frames with the same bytes are the same, up to nil and empty |
| FrameScanner.FrameSplitter | pkg/stomp/frame_scanner.go:12-97 | the loops over the buffer give the answer of the declarative scan |
| FrameScanner.ReadHead | pkg/stomp/frame_scanner.go:29-71 | the header loop ends, with the size of the header block and the last declared length |
| FrameScanner.PanicsOnlyOutOfRange | pkg/stomp/frame_scanner.go:81-87 | indices stay in bounds exactly as long as the declared length stays in range |
| Acceptance.HeadExact | pkg/stomp/frame_scanner.go:29-71 | what the header loop makes of any lines: where it stops, why, the size and the last declared length |
| Acceptance.LinesRefused | pkg/stomp/frame_scanner.go:29-71 | a buffer is refused for its lines exactly when they end unfinished or with a bad one |
| Acceptance.BodyToNul | pkg/stomp/frame_scanner.go:73-79 | without a declared length the frame ends at the first NUL, and the splitter waits for one |
| Acceptance.BodyOfLength | pkg/stomp/frame_scanner.go:80-89 | with one: waits, takes, refuses or fails its bounds check, exactly as the byte behind the body says |
| Acceptance.WrongLength | pkg/stomp/frame_scanner.go:85-87 | a printed frame whose length is wrong is refused exactly when a byte other than NUL is where it should end |
| FrameScanner.TokenShape | pkg/stomp/frame_scanner.go:91-96 | a token is a nonempty slice that ends at a positive advance, with NUL and at most one line end |
| FrameScanner.TokenGrows | pkg/stomp/frame_scanner.go:12-97 | more input changes a token by at most one line end after its NUL |
| FrameScanner.DropEol | pkg/stomp/frame_scanner.go:20-27 | a line end in front of a buffer moves what is found and changes nothing else, exactly when the declared length is not at the edge of 64 bits |
| FrameScanner.FindingStays | pkg/stomp/frame_scanner.go:12-97 | a frame or a fault found behind complete lines is found again when more has arrived |
| WireFraming.EscapeNeutral | pkg/stomp/frame_scanner.go:61-68 | escaping hides neither a content-length key nor its value from the splitter |
| WireFraming.ContentLengthExact | pkg/stomp/frame_scanner.go:61 | a key is content-length exactly when spelled so, in any capitals |
| WireFraming.ScanOfBlock | pkg/stomp/frame_scanner.go:36-71 | the splitter reads a printed header block as the last length it declares |
| WireFraming.FramingExact | pkg/stomp/frame_scanner.go:73-96 | a printed frame is cut at its end exactly when its declared length fits its body |
| Streams.Drain | pkg/stomp/frame_scanner.go:107-108 | the scanning loop cuts off every complete frame and leaves the rest |
| Streams.ScanFrames | pkg/stomp/frame_scanner.go:101-117 | the scanner delivers what reading and cutting in turn delivers |
| Streams.LeadingEol | pkg/stomp/frame_scanner.go:91-94 | a line end in front never shows in the frames, and stops the scanner exactly when no frame is in front and the pending length is at the edge |
| Streams.Resume | pkg/stomp/frame_scanner.go:12-97 | cutting, then cutting the rest with more input, is cutting everything at once, and gets through when that does |
| Streams.EdgeStopsPieces | pkg/stomp/frame_scanner.go:81-87 | why the pending body has to be within range: streams that get through in one read and trap in two |
| Streams.ChunkInvariance | pkg/stomp/frame_scanner.go:101-117 | for any bytes in any chunks: always a first part of the frames of the whole stream; never refused, and then all of them, exactly when every read leaves only line ends or a complete header block |
| StreamRoundTrip.CutShort | pkg/stomp/frame_scanner.go:29-89 | the splitter waits for the rest of a frame exactly when its header block is complete |
| StreamRoundTrip.PrefixScan | pkg/stomp/frame_scanner.go:12-97 | a prefix of a stream scans in good order exactly when it ends at a good position |
| StreamRoundTrip.CarriageReturnBehindFrame | pkg/stomp/frame_scanner.go:91-94 | a carriage return right behind a frame goes into its token, which then does not parse |
| StreamRoundTrip.StreamComesBack | pkg/stomp/frame_scanner.go:12-97 | any list of well-formed frames with any heartbeats comes back as that list |
| StreamRoundTrip.ChunksComeBack | pkg/stomp/frame_scanner.go:101-117 | the same from any buffer, in chunks: refused never exactly when no chunk ends in a header block |
| StreamRoundTrip.SentIsReceived | pkg/stomp/frame_scanner.go:101-117 | the same for a connection from its start |
| StreamRoundTrip.ChunksParseAlike | pkg/stomp/frame_scanner.go:101-117 | any stream without carriage returns parses alike whole and in chunks, under the same exact condition on the cuts |
| Heartbeat.HbValRoundTrip | pkg/stomp/common.go:46-63 | a printed pair of intervals parses back exactly when neither is negative |
| Heartbeat.ParseHbValExact | pkg/stomp/common.go:46-63 | a header value is read exactly when it is two non-negative numbers around one comma |
| Heartbeat.NegotiatedExact | pkg/stomp/broker.go:270-296 | whatever a side had, it ends with the agreed intervals and a job for the send interval |
| Heartbeat.HandshakeRefused | pkg/stomp/client.go:179-190 | who refuses which handshake frame |
| Heartbeat.ConnectSays | pkg/stomp/client.go:304-323 | CONNECT and STOMP in full |
| Heartbeat.ConnectedSays | pkg/stomp/broker.go:251-256 | CONNECTED in full |
| Heartbeat.Session.NegotiateHeartbeats | pkg/stomp/broker.go:264-296 | sets the session's intervals and job to the negotiated ones, or nothing on a bad value |
| Heartbeat.Session.HandleConnect | pkg/stomp/broker.go:244-261 | negotiates if the header is there and answers with the resulting intervals |
| Heartbeat.ClientHandler.NegotiateHeartbeats | pkg/stomp/client.go:260-292 | the same on the client |
| Heartbeat.ClientHandler.HandleConnected | pkg/stomp/client.go:179-190 | refuses an answer without a session and negotiates with its intervals |
| Heartbeat.HandshakeAgrees | pkg/stomp/broker.go:244-296 | over the wire, the client gets the agreed intervals, jobs exist exactly for nonzero ones, and the broker mirrors it exactly when an offer was sent or it offered nothing |
| AckToken.TokenRoundTrip | pkg/stomp/subscribe.go:129-145 | a token reads back as what it was made of exactly when neither name holds a colon |
| AckToken.ScanExact | pkg/stomp/subscribe.go:133-145 | any token of three parts or more reads as its first three, if the third is a number that is not negative |
| AckToken.ScanTooFew | pkg/stomp/subscribe.go:134-136 | every other token fails on the index taken of its parts |
| AckToken.TokenClean | pkg/stomp/subscribe.go:129-131 | a token of names that survive the wire survives the wire |
| Ledger.Acknowledge | pkg/stomp/subscribe.go:164-170 | the removal loop ends and leaves what the acknowledgement says |
| Ledger.LedgerExact | pkg/stomp/subscribe.go:108-116 | numbers are 0, 1, 2, ...; pending is exactly what the history leaves outstanding in each mode |
| Ledger.CounterWraps | pkg/stomp/subscribe.go:115 | the counter is the number of messages in 32 bits, after any history |
| Ledger.WithoutRunExact | pkg/stomp/subscribe.go:165-167 | the removal loop takes out exactly what counting up reaches without a gap, across the wrap |
| Ledger.ClientInterval | pkg/stomp/subscribe.go:164-167 | in client mode pending is one interval that ends at the counter |
| Ledger.ClientAck | pkg/stomp/subscribe.go:164-167 | a client-mode acknowledgement leaves nothing pending, and is cumulative exactly when nothing pending is above it |
| Ledger.ClientAckTraps | pkg/stomp/subscribe.go:165 | it fails exactly when nothing was sent since the last one |
| Registry.AddExact | pkg/stomp/subscribe.go:37-60 | a subscription keeps the maps in agreement exactly when it renews itself or is new and, as written, alone on its destination |
| Registry.AddSays | pkg/stomp/subscribe.go:44-58 | what the three maps say after a subscription, in any index |
| Registry.AddReplies | pkg/stomp/subscribe.go:37-60 | a subscription is refused exactly without an id or a destination |
| Registry.GuardsAgree | pkg/stomp/subscribe.go:44-46 | when the guard as written and the guard on the destination do the same |
| Registry.RemoveExact | pkg/stomp/subscribe.go:62-83 | in agreeing maps, unsubscribing succeeds exactly for a live id and removes it, and it alone, from all three |
| Registry.RemoveReplies | pkg/stomp/subscribe.go:62-83 | what unsubscribing answers in any index; a failed one changes nothing |
| Registry.RemoveSays | pkg/stomp/subscribe.go:75-81 | what the three maps say after unsubscribing, in any index |
| Registry.RemoveUndoesAdd | pkg/stomp/subscribe.go:37-83 | unsubscribing undoes a fresh subscription, up to an empty set left for the session |
| Registry.RemoveAllExact | pkg/stomp/subscribe.go:85-96 | removing live subscriptions one by one never fails and the order does not matter |
| Registry.CleanupExact | pkg/stomp/subscribe.go:85-96 | cleanup succeeds in any order, removes every trace of the session and nothing else, and keeps the maps in agreement |
| Registry.CleanupDropsSet | pkg/stomp/subscribe.go:85-96 | in any index, the session's set goes exactly when all removals succeed |
| Registry.FanOut | pkg/stomp/subscribe.go:119-124 | in any order, each subscriber gets exactly one message under its own number, and nobody else any |
| Registry.PublishExact | pkg/stomp/subscribe.go:98-127 | exactly the reached counters move by one; the maps stay as they are |
| Registry.PublishReplies | pkg/stomp/subscribe.go:98-127 | an error exactly without a destination, and no return exactly when a subscriber refuses |
| Registry.AckExact | pkg/stomp/subscribe.go:147-172 | an acknowledgement changes the one ledger its token names |
| Registry.AckReplies | pkg/stomp/subscribe.go:147-172 | an acknowledgement is accepted exactly when its token names a live subscription that can take it |
| Subscriptions.Tables.AddSubscription | pkg/stomp/subscribe.go:37-60 | the update in place is the pure step with the guard as written |
| Subscriptions.Tables.RemoveSubscription | pkg/stomp/subscribe.go:62-83 | the update in place is the pure step |
| Subscriptions.Tables.CleanupSubscriptions | pkg/stomp/subscribe.go:85-96 | the loop removes in the order listed, up to the first failure |
| Subscriptions.Tables.Publish | pkg/stomp/subscribe.go:98-127 | whatever the order, the same maps result, and the messages are those of that order |
| Subscriptions.Tables.ProcessAckVal | pkg/stomp/subscribe.go:147-172 | the update in place is the pure step |
| RegistryRuns.StepExact | pkg/stomp/subscribe.go:26-172 | any step keeps the maps in agreement exactly when it is not a subscription that does not fit |
| RegistryRuns.RunExact | pkg/stomp/subscribe.go:26-172 | the maps agree throughout a run exactly when every subscription fits when it is made |
| RegistryRuns.FreshRunExact | pkg/stomp/subscribe.go:37-60 | with fresh ids: always under the guard on the destination; as written, exactly while no destination gets a second subscriber |
| RegistryRuns.SecondSubscriberDisplaces | pkg/stomp/subscribe.go:44-46 | the smallest run that goes wrong as written |
| RegistryRuns.LedgerOfRun | pkg/stomp/subscribe.go:98-172 | in every reachable state a ledger is what its own history makes it |
| RegistryRuns.PendingOfRun | pkg/stomp/subscribe.go:98-172 | over a whole run, counter and pending set are read off the subscription's own history |
| Transactions.TxBuffer.StartTx | pkg/stomp/transaction.go:10-19 | opens an empty buffer, and refuses an empty or open id |
| Transactions.TxBuffer.BufferTxMessage | pkg/stomp/transaction.go:22-28 | appends to an open buffer only |
| Transactions.TxBuffer.DropTx | pkg/stomp/transaction.go:47-56 | removes an open buffer only |
| Transactions.OpenExact | pkg/stomp/transaction.go:10-56 | a transaction is open exactly when one of its BEGINs was not followed by an ABORT |
| Transactions.BufferExact | pkg/stomp/transaction.go:22-28 | an open buffer holds, in order, the SENDs since the BEGIN that opened it |
| Transactions.CommitsRepeat | pkg/stomp/broker.go:133-144 | a transaction committed k times publishes k times over |
| Transactions.AbortDiscards | pkg/stomp/broker.go:146-150 | an aborted transaction publishes nothing |
| Transactions.DeliverableAll | pkg/stomp/subscribe.go:99-102 | a commit publishes the whole buffer exactly when every message has a destination |
| Broker.SharedState.PublishBuffer | pkg/stomp/transaction.go:31-44 | the commit's loop publishes in order, up to the first failure |
| Broker.SharedState.StateMachine | pkg/stomp/broker.go:84-158 | each command is the step of its kind on the joint state |
| BrokerRuns.StepReplies | pkg/stomp/broker.go:84-158 | what the broker answers to each frame |
| BrokerRuns.PlainSendsPublished | pkg/stomp/broker.go:97-101 | outside transactions, a run publishes its SENDs with a destination, once each, in order, and nothing else |
| BrokerRuns.CommitExact | pkg/stomp/broker.go:133-144 | a commit publishes exactly what is handed out of its buffer: up to a message without a destination, and including the first refused |
| BrokerRuns.TransactionAlone | pkg/stomp/broker.go:91-150 | in any interleaving, a transaction holds what its own frames alone make it, and publishes that too unless a message of its own commits is refused |
| BrokerRuns.CommitPublishesPrefix | pkg/stomp/transaction.go:31-44 | a commit publishes a first part of its buffer, in order, whichever sends of whichever message fail |
| BrokerRuns.ClientTransaction | pkg/stomp/broker.go:133-150 | begun, fed and ended at most once, it publishes its messages once and in order if committed, and nothing otherwise |
| BrokerRuns.OnlyCommitPublishes | pkg/stomp/broker.go:133-144 | nothing but its own COMMIT publishes for a transaction |
| BrokerRuns.BrokerRefinesIndex | pkg/stomp/broker.go:84-158 | the index inside the broker is the index of a run of its calls |
| BrokerRuns.StepConsistent | pkg/stomp/broker.go:84-158 | one frame keeps the three maps in agreement exactly when it is not a SUBSCRIBE that does not fit |
| BrokerRuns.BrokerConsistent | pkg/stomp/broker.go:84-158 | the maps agree throughout a run of the broker exactly when every SUBSCRIBE fits when it is made |
| BrokerRuns.FreshBrokerConsistent | pkg/stomp/broker.go:105-112 | with fresh ids: exactly while nobody subscribes to a destination that has a subscriber |
| BrokerRuns.ModeExact | pkg/stomp/broker.go:105-108 | the dispatch passes on the mode asked for exactly when that is `auto` by name |
| BrokerRuns.AcksAreInert | pkg/stomp/broker.go:105-120 | in every reachable state of the broker an acknowledgement changes nothing |
| Client.BuildSend | pkg/stomp/client.go:325-335 | builds the SEND to that destination; custom headers win over the client's own |
| Client.SendSays | pkg/stomp/client.go:325-335 | a SEND in full: the custom headers, the client's own where no custom one has their name, no others |
| Client.SendPublished | pkg/stomp/client.go:325-335 | a client's SEND, once received, is published under its destination with its body |
| Client.MergeKeeps | pkg/stomp/broker.go:172-174 | a key that no header lower-cases to keeps its value |
| Client.MergeTakes | pkg/stomp/broker.go:172-174 | a key holds the last header written that lower-cases to it |
| Client.SendWellFormed | pkg/stomp/client.go:325-335 | a SEND of clean text survives any stream exactly when its custom content-length headers fit, whatever bytes but carriage returns its body holds |
| Client.MergeAnyOrder | pkg/stomp/broker.go:172-174 | headers that stay apart in lower case merge to the same map in any order |
| Client.Transaction.Send | pkg/stomp/client.go:376-386 | sends only while the object is live, under the object's own transaction |
| Client.Transaction.AbortTransaction | pkg/stomp/client.go:388-397 | a live object sends an ABORT under its own id and ends; its frames then leave nothing held and nothing published |
| Client.Transaction.CommitTransaction | pkg/stomp/client.go:399-408 | a live object sends a COMMIT under its own id and ends; its frames then publish its messages once |
| Client.TransactionPublishesOnce | pkg/stomp/client.go:368-408 | the broker publishes what a transaction object sent, as parsed, exactly when it was committed, once and in order |
| Client.AbortedPublishesNothing | pkg/stomp/client.go:388-397 | after an accepted abort nothing the object sent is published or held |
| Client.CommittedPublishesOnce | pkg/stomp/client.go:399-408 | after an accepted commit it is published once, in order |
| Acknowledgement.SendMessage | pkg/stomp/broker.go:160-176 | the merged MESSAGE, in whatever order the publisher's headers are written |
| Acknowledgement.MessageSays | pkg/stomp/broker.go:160-176 | a MESSAGE in full: command, body, keys, and the value that was written last |
| Acknowledgement.AckSays | pkg/stomp/client.go:410-416 | an ACK in full |
| Acknowledgement.MessageKeeps | pkg/stomp/broker.go:160-176 | token, subscription, message id, transaction and destination are in the MESSAGE unless a publisher header lower-cases to their key |
| Acknowledgement.PublisherDisplacesToken | pkg/stomp/broker.go:172-174 | of the publisher headers that lower-case to `ack`, the last one written displaces the token |
| Acknowledgement.MessageFaithful | pkg/stomp/broker.go:160-176 | a MESSAGE made of a parsed SEND survives the wire exactly when the lower-cased keys do |
| Acknowledgement.LowerCaseSpoilsKey | pkg/stomp/broker.go:172-174 | an accepted key that does not |
| Acknowledgement.MessageFramed | pkg/stomp/broker.go:160-176 | a MESSAGE is cut at its end exactly when the content-length written last fits, or there is none and no NUL |
| Acknowledgement.AnyOrderFramed | pkg/stomp/broker.go:172-174 | it is so in every map order exactly when all lengths of the SEND agree with its body |
| Acknowledgement.TwoLengthsDisagree | pkg/stomp/broker.go:172-174 | a SEND that is cut at its end and whose MESSAGE need not be |
| Acknowledgement.ClientSendRelays | pkg/stomp/client.go:325-335 | what a client sends can be relayed, if its custom headers leave length and token alone |
| Acknowledgement.TokenReturns | pkg/stomp/client.go:410-416 | for clean names and a relayable SEND, token and transaction come back through both streams as they were made |
| Acknowledgement.AckEndToEnd | pkg/stomp/subscribe.go:147-172 | for names without colons as well, the ACK for message n takes n, and nothing else anywhere, off the ledger |

## Left out

- Transports, listening, shutdown, retries and backoff: input and output over libraries that are not part of this model.
- The command-line client and server: user interface.
- Goroutines, locks, channels and buffer reuse: a command and a split are atomic; the fan-out of `publish` is a loop in arbitrary order.
- The token size limit of `bufio.Scanner`, and its end-of-input flag, which `frameSplitter` ignores.
- The pointer to a subscription's record: the record is a value in the inner map, which is the only place the code stores the pointer, so sharing of records is not modelled.
- Heart-beat timing and errors of the scheduler: only whether a job is scheduled, and its interval.
- Login, version negotiation, receipts, ERROR frames, log output, error texts and `Frame.String`: single-branch checks and formatting.
- `Validate` except `checkValidEscapes`: lookups in a fixed table. A MESSAGE that fails it is a failed send.
- NACK, the commented-out acknowledgement handler and the `ackCh` channel: no behaviour.
- UUIDs: freshness of subscription ids is a hypothesis; transaction ids are arbitrary.
- Lower-casing outside ASCII: no other letter lower-cases to a letter of `content-length`; other header keys are taken to be ASCII.
- Broker.SharedState.StateMachine: CONNECT is a step without effect on the shared state; what it does to a session is `Heartbeat.Session.HandleConnect`, and the reply to a RECEIPT request is left out.
- BrokerRuns.TransactionAlone: what is published is stated for runs in which no message of the transaction's own commits is refused, because `publish` waits forever for a refused one, and the commit stops there; `BrokerRuns.CommitPublishesPrefix` covers the others.
- Streams.ChunkInvariance: that ready buffers get the scanner through is stated for a pending body within the range of an index; beyond it the order of the reads decides, as `Streams.EdgeStopsPieces` shows.
