# yftpserver: command parser, reply printer and client registry

A Dafny model of three parts of the FTP server, with proofs about them.

**The command parser** (`request_parser`) takes chunks of bytes from the control connection. It drops a
Telnet run where a line begins, collects the line in a 2048-byte buffer of which it uses 2000, queues
every finished line, and with each call of `parse` takes at most one line off the queue, splits it
into verb and arguments and looks the verb up in a table that is gated on the login status.

- `Framing` holds two descriptions of how bytes become lines. `Frames` and `Residual` look at a whole
  stream: cut at CR, LF and NUL, strip the Telnet run, keep 2000 bytes, drop what is empty. `Step` and
  `Feed` are the byte loop on values. `FeedIsFraming` says that they agree. `FramingLaws` has the laws.
- `Commands` is the table (`Lookup`), the split (`RawVerb`, `Args`) and the two gates (`Classify`).
  `CommandLaws` has the laws, and says what each verb means without the table (`VerbsOf`, `Due`).
- `Runs` describes any mix of `parse` and `set_status` calls: `Next` is one call, `After` a whole run;
  `Received`, `Login`, `Lines` and `Popped` describe the run without parser states. It is stated for
  any framing that does not care about chunk boundaries and any dispatch. `RunLaws` has the laws, and
  `RequestRuns` the main theorems with the real framing and the real dispatch put in.
- `RequestParsing` is the object with its array, its queue and its flags, updated in place. Its
  `Valid()` ties the fields to the history of calls, so every law of runs holds of the object.

**The reply printer** (`reply`) writes a decimal code, a space, a text and CRLF: `Replies`, with
`ReplyLaws` and `RefusalLaws`.

**The client registry and the per-user quota** (`client_manager`, `user_node`): `Clients` has the
objects, `Registry` the operations as functions and a reference definition of which registrations
are alive, `Quota` the interleaved steps of any number of threads between lock operations with the
bound on the number of clients, and `Atomicity` when such a run is equivalent to its operations one
at a time in the order of their effects, and what searches find in between.

Five things in the source are not what its comments or a reader may expect, and the model follows the code:

- Plain `char` is compared with 240 and 255, so the Telnet branch exists only where `char` is unsigned.
  Everything is proved for both, and `PlatformsAgreeIff` says for which streams it makes no difference.
- `reset()` is announced as a reset to the initial state and does nothing, and neither does `Reset`.
- `parse` answers one line a call, and the server calls it once for each read
  (`jni/yftp/ftp_server.cpp`, lines 176-177). A client that sends several commands at once is behind
  by that many replies until it sends something else: `OneChunkOneAnswer`, `BacklogFormula`.
- The overload of `add_client` that takes a socket passes the user's quota by. Nothing in the repository
  calls it, and `Atomicity` says what would happen. It also sets the server's address twice, first to
  the local and then to the remote one, and the client's never.
- The comment that a command has at most 2000 characters is about bytes, after the Telnet run.

The header `jni/yftp/client_manager.h` makes `get_client_num` the length of the list, read without the
lock (lines 46-49), and `add_client` of a client an append under the lock (lines 34-38).

Assumptions: `utf82ws`, `ws2utf8` and `ws2s` are unknown functions given to the objects (`Decoder`,
`Encoder`). A decoder may fail, which stands for the exception it throws; the line is gone by then.
Where a theorem needs more, it asks for ASCII to be kept as it is. The socket handle of a client is
an opaque number, and that a socket is open is a parameter. A step of `Quota` is indivisible, also
the read of the list length that the source makes without a lock.

## Model

| member | source | states |
|---|---|---|
| Framing.EolIndex | jni/yftp/request_parser.cpp:182-183 | finds the first CR, LF or NUL: nothing before it is one |
| Framing.TelnetRun | jni/yftp/request_parser.cpp:169-175 | the run of bytes from 240 up is as long as it can be; the byte that ends it is not part of it |
| Framing.LastSegmentEndsStream | jni/yftp/request_parser.cpp:182-200 | the unfinished segment is the end of the stream, right behind a line end or all there is |
| Framing.FeedConcat | jni/yftp/request_parser.cpp:165-201 | the byte loop may be stopped and resumed anywhere |
| Framing.StepInsideSegment | jni/yftp/request_parser.cpp:167-200 | one more byte inside a line does to the loop's state what it does to the cleaned segment, for both kinds of char |
| Framing.StepAtEol | jni/yftp/request_parser.cpp:183-195 | a line end queues the cleaned segment unless it is empty, and clears position and flag |
| Framing.FeedFromSegment | jni/yftp/request_parser.cpp:165-201 | from the middle of any line, the loop gives the lines and the leftover of the whole stream |
| Framing.FeedIsFraming | jni/yftp/request_parser.cpp:165-201 | the byte loop computes exactly the declarative lines and leftover of every stream |
| FramingLaws.ResidualIsValid | jni/yftp/request_parser.cpp:167-200 | the Telnet flag is up only between lines; the partial line is within 2000 bytes and holds no line end |
| FramingLaws.FramesGrow | jni/yftp/request_parser.cpp:183-195 | more bytes only append lines, and the leftover is all that the past contributes |
| FramingLaws.NextByte | jni/yftp/request_parser.cpp:165-201 | what one more byte does to lines and leftover of any stream, in numbers: 13, 10 and 0 end a line, 255 opens and 240 up continues a Telnet run between lines where char is unsigned, everything else is stored up to 2000 bytes |
| FramingLaws.AfterIac | jni/yftp/request_parser.cpp:170-175 | behind a 255 a byte leaves the buffer empty if and only if it is 240 or more |
| FramingLaws.TelnetIsDropped | jni/yftp/request_parser.cpp:168-180 | any run of bytes from 240 up that opens with 255 disappears from before any line |
| FramingLaws.IdleAfterEol | jni/yftp/request_parser.cpp:183-195 | after any line end position and flag are clear |
| FramingLaws.Resynchronise | jni/yftp/request_parser.cpp:167-195 | the two sides of a line end can be framed on their own |
| FramingLaws.Accounting | jni/yftp/request_parser.cpp:165-201 | each queued line cost two bytes at least, and its length plus one; what is buffered is paid for too |
| FramingLaws.FramesAreLegal | jni/yftp/request_parser.cpp:169-200 | a queued line has 1 to 2000 bytes, no line end, and does not begin with IAC where char is unsigned |
| FramingLaws.FramesOfEncode | jni/yftp/request_parser.cpp:165-201 | any list of such lines, each sent with CRLF, comes out unchanged |
| FramingLaws.FramesImage | jni/yftp/request_parser.cpp:165-201 | exactly the lists of such lines can come out |
| FramingLaws.ByteAfter | jni/yftp/request_parser.cpp:167-200 | a byte has no effect exactly when it is beyond byte 2000, in a Telnet run, or a line end on an empty line |
| FramingLaws.DeletableIffRedundant | jni/yftp/request_parser.cpp:197-200 | a byte can be deleted, whatever follows, exactly in those cases |
| FramingLaws.KeptIsEnough | jni/yftp/request_parser.cpp:167-200 | deleting any choice of bytes that have no effect where they stand changes no line and no leftover |
| FramingLaws.OverlongIsIrrelevant | jni/yftp/request_parser.cpp:197-200 | deleting every byte beyond the 2000th of its line, and nothing else, changes no line and no leftover |
| FramingLaws.EssentialIsEnough | jni/yftp/request_parser.cpp:167-200 | nor does deleting all bytes without effect at once |
| FramingLaws.PlatformsAgreeIff | jni/yftp/request_parser.cpp:170-179 | signed and unsigned builds treat a stream alike if and only if no segment of it begins with IAC |
| CommandLaws.TableVerbs | jni/yftp/request_parser.cpp:25-80 | every verb has 3 or 4 characters, upper-case letters or @ |
| CommandLaws.TableEntries | jni/yftp/request_parser.cpp:25-80 | no entry has the invalid id, which parse uses for refusals |
| CommandLaws.LookupIffVerbOf | jni/yftp/request_parser.cpp:25-80 | a verb is in the table with a command if and only if it is one of the names of that command, so no two are mixed up and none is missing |
| CommandLaws.NeedArgumentVerbs | jni/yftp/request_parser.cpp:25-80 | which 30 verbs need an argument, and no others |
| CommandLaws.BeforeLogonVerbs | jni/yftp/request_parser.cpp:25-80 | which 13 verbs may be given before logging on, and no others |
| CommandLaws.AliasAgreesIff | jni/yftp/request_parser.cpp:29-56 | a second name acts like the first in every case but XCWD without an argument |
| CommandLaws.SplitInvertsCompose | jni/yftp/request_parser.cpp:133-154 | a verb and arguments put together are split into the same verb and arguments |
| CommandLaws.ComposeInvertsSplit | jni/yftp/request_parser.cpp:133-154 | the split loses nothing: put together again it is the line |
| CommandLaws.ArgsEmptyIff | jni/yftp/request_parser.cpp:138-148 | arguments are empty only without a space or with the first space last, so the "failed to decode" reply is never sent |
| CommandLaws.OutcomePartition | jni/yftp/request_parser.cpp:87-116 | when a line is passed over, refused with 500, 501 or 530 and which text, or accepted, each if and only if; 501 comes before 530 |
| CommandLaws.OutcomesOfText | jni/yftp/request_parser.cpp:155-159 | a line is passed over silently exactly when it is empty or begins with a space; a refusal is one of three |
| CommandLaws.AcceptedIsGated | jni/yftp/request_parser.cpp:90-107 | an accepted command passed both gates, the upper-cased verb is one of its names, and it has the arguments of the line |
| CommandLaws.UpperIffVariant | jni/yftp/request_parser.cpp:157 | exactly the letter-case variants of a table verb are looked up as it |
| CommandLaws.CaseInsensitive | jni/yftp/request_parser.cpp:133-159 | lines that differ in the letter case of the verb only have one outcome and the same arguments |
| CommandLaws.OutcomeIsDue | jni/yftp/request_parser.cpp:25-116 | the outcome of a line with a verb of a command in any letter case, said without the table: the id, the two gates by named sets of verbs, and the texts of the refusals |
| CommandLaws.UnrecognizedIff | jni/yftp/request_parser.cpp:109-113 | refused with 500 if and only if the verb is no letter-case variant of any name of any command |
| CommandLaws.UndecodableIff | jni/yftp/request_parser.cpp:131 | the exception comes exactly when the line cannot be decoded, and otherwise the text decides |
| Runs.LinesGrow | jni/yftp/request_parser.cpp:165-201 | a longer run only adds lines to those of its beginning |
| Runs.RunInvariant | jni/yftp/request_parser.cpp:162-214 | after every run, leftover, queue and login status are those the byte stream calls for |
| Runs.RunRefinement | jni/yftp/request_parser.cpp:162-214 | each call answers the next line of the whole stream, for any framing and dispatch |
| Runs.OutcomesAreDispatchedLines | jni/yftp/request_parser.cpp:202-213 | the outcomes of a run are those of its first lines, in order, each under the login status of its own call |
| Runs.Conservation | jni/yftp/request_parser.cpp:127-128 | lines dealt with and lines waiting make up the lines of the stream; none is lost, doubled or reordered |
| RunLaws.DrainedState | jni/yftp/request_parser.cpp:202-213 | n empty calls take n lines off the queue, or all, and change nothing else |
| RunLaws.DrainIsExact | jni/yftp/request_parser.cpp:202-213 | empty calls answer the waiting lines one by one in order and after that ask for more data |
| RunLaws.PopLoginsWhenSteady | jni/yftp/request_parser.h:96-99 | lines dealt with while the login status stays are judged under it |
| RunLaws.DrainedRun | jni/yftp/request_parser.cpp:162-214 | a drained run with one login status depends on its byte stream only |
| RunLaws.Confluence | jni/yftp/request_parser.cpp:162-214 | two such runs over the same bytes agree in outcomes and in the state left, whatever their chunks and empty calls |
| RunLaws.BacklogFormula | jni/yftp/request_parser.cpp:202-213 | the number of waiting lines is the largest surplus of lines over calls in a final stretch of the run |
| RunLaws.KeepsUpIff | jni/yftp/request_parser.cpp:202-213 | nothing is ever left waiting if and only if no call completes two lines |
| RunLaws.OneLineOneOutcome | jni/yftp/request_parser.cpp:162-214 | with nothing waiting, a stretch that completes one line gives that line's outcome and no other |
| RequestRuns.EveryCallAnswersTheNextLine | jni/yftp/request_parser.cpp:118-214 | every call of every run: the outcome is the dispatch of line n of the stream's declarative framing under the present login status, or a request for data exactly when there is no line n yet |
| RequestRuns.StreamDecidesOutcomes | jni/yftp/request_parser.cpp:162-214 | the drained outcomes and the final state as functions of the byte stream |
| RequestRuns.PipelineRoundTrip | jni/yftp/request_parser.cpp:162-214 | any legal lines, pipelined in chunks of any shape, are dispatched one by one and leave an idle parser |
| RequestRuns.OneChunkOneAnswer | jni/yftp/request_parser.cpp:202-212 | of several lines sent to a new parser in one chunk the first is answered and all others are left waiting |
| RequestRuns.SecondNoopWaits | jni/yftp/request_parser.cpp:202-212 | for instance the second of two NOOP lines |
| RequestRuns.CommandsAreGated | jni/yftp/request_parser.cpp:90-107 | in every run a returned command passed both gates at the time of its call, not of its arrival |
| RequestRuns.OnlyLoginVerbsBeforeLogon | jni/yftp/request_parser.cpp:96-101 | before the first logon only commands that have one of the 13 verbs as a name are ever returned |
| RequestRuns.SentLineArrives | jni/yftp/request_parser.cpp:165-201 | on an idle parser a legal line with CRLF completes exactly itself and leaves it idle |
| RequestRuns.RequestRoundTrip | jni/yftp/request_parser.cpp:25-214 | a verb of any command in any letter case with ASCII arguments and CRLF, in chunks of any shape, on any idle parser, gives one outcome: that command with those arguments, or the refusal of the gate it fails |
| RequestRuns.UnknownRequest | jni/yftp/request_parser.cpp:25-214 | and a line that opens with no verb of any command gives the refusal 500 and nothing else |
| RequestParsing.CString | jni/yftp/request_parser.cpp:188-189 | reading the buffer as a C string takes everything before the first NUL, which has to be inside the buffer |
| RequestParsing.CStringIsStored | jni/yftp/request_parser.cpp:186-190 | after the terminator is stored, the C string is the bytes stored for this line; nothing stale of an earlier one |
| RequestParsing.NextCall | jni/yftp/request_parser.cpp:162-214 | the next call of any history leads to the state of the longer history and answers its next line |
| RequestParsing.AnswerOfCall | jni/yftp/request_parser.cpp:202-213 | that answer as the caller sees it: thrown if and only if the line cannot be decoded, the command if and only if it was accepted, and otherwise a reply that reads back as the code and the text of the refusal |
| RequestParsing.RequestParser.constructor | jni/yftp/request_parser.h:103-113 | a new parser is in the starting state, with arbitrary bytes in its buffer |
| RequestParsing.RequestParser.SetStatus | jni/yftp/request_parser.h:96-99 | sets the login status and adds to the history, nothing else |
| RequestParsing.RequestParser.ConsumeByte | jni/yftp/request_parser.cpp:165-200 | one turn of the loop on the array and the queue is one step of the machine, with every access inside the buffer |
| RequestParsing.RequestParser.ReceiveAll | jni/yftp/request_parser.cpp:165-201 | the loop feeds the whole chunk and leaves the caller's bytes alone |
| RequestParsing.RequestParser.MapCommand | jni/yftp/request_parser.cpp:82-117 | returns the command or the invalid one; only a refusal writes to the reply, and what it writes |
| RequestParsing.RequestParser.SplitLine | jni/yftp/request_parser.cpp:133-154 | the steps from finding the first space compute the verb and the arguments of the split |
| RequestParsing.RequestParser.GetCommand | jni/yftp/request_parser.cpp:118-160 | takes the first line off the queue, throws if and only if it cannot be decoded, and otherwise returns the outcome of that line |
| RequestParsing.RequestParser.AnswerLine | jni/yftp/request_parser.cpp:202-212 | indeterminate without a line; else true with the command, false after a refusal or silence, or the exception |
| RequestParsing.RequestParser.TakeCall | jni/yftp/request_parser.cpp:162-214 | a whole call is one step of the run model, in state, answer and reply |
| RequestParsing.RequestParser.Parse | jni/yftp/request_parser.cpp:162-214 | the call before which n lines were answered answers line n of everything received since the parser was made: what it returns, when it throws, and what can be read from the reply |
| Replies.Decimal | jni/yftp/reply.h:63-66 | a code is written in digits without a leading zero |
| Replies.Reply.constructor | jni/yftp/reply.h:34-39 | a new reply is empty, without code, in UTF-8 |
| Replies.Reply.Of | jni/yftp/reply.h:40-44 | a reply made with a code and a text reads back as them; without a code it is the encoded text, whole |
| Replies.Reply.Create | jni/yftp/reply.h:45-48 | replaces the content by one that reads back as code and text, or is the text, and keeps the code type |
| Replies.Reply.CreateAs | jni/yftp/reply.h:49-67 | the same with a code type to encode the text by, which is kept for later |
| Replies.Reply.Clear | jni/yftp/reply.h:68-71 | empties the reply and keeps its code and code type |
| Replies.Reply.SetCodeType | jni/yftp/reply.h:76-79 | changes the code type for later texts and nothing else |
| Replies.ParseOfRender | jni/yftp/reply.h:63-66 | from a rendered reply with a code, code and text come back, whatever bytes the text has |
| ReplyLaws.RenderOfParse | jni/yftp/reply.h:63-66 | what reads back as a code and a text is the rendering of that code and text |
| ReplyLaws.CreatedEmptyIff | jni/yftp/reply.h:72-75 | a reply that was just created is empty, and so not sent, only when it was given no code and no text |
| ReplyLaws.ReplyIsOneFrameIff | jni/yftp/reply.h:63-66 | a reply arrives as exactly its own line if and only if its text has no line end and the line fits in 2000 bytes |
| RefusalLaws.RefusalIsOneReplyLine | jni/yftp/request_parser.cpp:93-112 | each refusal the parser writes is one nonempty line that reads back as its code and text |
| RefusalLaws.RefusalCharacters | jni/yftp/request_parser.cpp:93-112 | character by character: 500, 501 or 530, a space, the text, CR and LF |
| Clients.ClientManager.constructor | jni/yftp/client_manager.cpp:16-19 | a new registry is empty |
| Clients.ClientManager.FindClient | jni/yftp/client_manager.cpp:26-42 | the earliest entry with the handle, or null exactly when there is none |
| Clients.ClientManager.AddSocket | jni/yftp/client_manager.cpp:43-81 | a new client at the end for an open socket, with the peer's address where the server's belongs; null and no change for a closed one |
| Clients.ClientManager.AddClient | jni/yftp/user_node.h:79 | appends the client, as the header client_manager.h does for this call in its lines 34-38 |
| Clients.ClientManager.DeleteClient | jni/yftp/client_manager.cpp:83-106 | removes the first entry of the client and keeps the order of the rest; null changes nothing |
| Clients.ClientManager.DeleteAllClient | jni/yftp/client_manager.cpp:108-114 | empties the list |
| Clients.UserNode.constructor | jni/yftp/user_node.h:61-72 | a new user has no clients and a limit of 10 |
| Clients.UserNode.SetMaxClientNum | jni/yftp/user_node.h:141-144 | sets the limit |
| Clients.UserNode.AddClient | jni/yftp/user_node.h:73-83 | says yes exactly when the limit is -1 or there are fewer clients than that, and only then appends |
| Registry.RemoveFirstIsWithoutFirst | jni/yftp/client_manager.cpp:95-103 | the first entry goes, wherever it is, and all others stay in their order |
| Registry.RemoveFirstRemovesOne | jni/yftp/client_manager.cpp:95-103 | one occurrence goes, if there is one, and nothing else |
| Registry.TicketsNumberTheList | jni/yftp/client_manager.cpp:83-114 | numbering the registrations does not change the list |
| Registry.AheadIsPlace | jni/yftp/client_manager.cpp:95-103 | the place of a registration among those of its client is the earlier ones less the removals since; when that is used up it is gone |
| Registry.ListIsAliveInOrder | jni/yftp/client_manager.cpp:83-114 | after any changes the list holds exactly the registrations alive by that count, in the order they were made |
| Registry.FirstIsEarliestAlive | jni/yftp/client_manager.cpp:30-41 | the first entry of a wanted client is its earliest registration alive |
| Quota.MovesIff | jni/yftp/user_node.h:73-83 | when a thread can move: an idle one starts any operation exactly when its lock is free, a busy one has one way to go and waits only for the lock of the registry, after a check it has passed |
| Quota.LocksStep | jni/yftp/user_node.h:75 | each lock is held by the thread inside and by no other, after every step |
| Quota.GrantsStep | jni/yftp/user_node.h:77-79 | from a passed check until the append, the clients that came in through the user stay below the limit, whatever others do |
| Quota.QuotaHolds | jni/yftp/user_node.h:73-83 | in every interleaving a user has at most its limit of clients (or as many as at first), plus those in the list now that were registered past the user |
| Quota.QuotaInSteps | jni/yftp/user_node.h:73-83 | these are no more than the registrations past the user that the run starts, so the bound can be read off its steps |
| Quota.QuotaThroughUser | jni/yftp/user_node.h:73-83 | when all clients come in through the user, no interleaving with deletes and clearing ever exceeds the limit (or the number at first) |
| Quota.OneDirect | jni/yftp/client_manager.cpp:26-114 | with the lock free every operation can be carried out: a delete takes the first entry and leaves all others in order, clearing leaves none, a search logs the first wanted entry |
| Quota.OneAdd | jni/yftp/user_node.h:73-83 | with room and both locks free an add appends the client and says yes |
| Quota.OneRefusal | jni/yftp/user_node.h:73-83 | without room it says no and changes nothing, even while another thread holds the lock of the registry |
| Quota.QuotaIsTight | jni/yftp/client_manager.cpp:69-74 | for every limit, every beginning and every number of such registrations that bound is reached |
| Quota.NoLimitIsNone | jni/yftp/user_node.h:77 | with the limit -1 any number of clients is reached through the user |
| Atomicity.AtomicIffAppendsFindRoom | jni/yftp/user_node.h:73-83 | a run is equivalent to its operations one at a time in the order of their effects if and only if every append found room |
| Atomicity.AddIsAtomic | jni/yftp/user_node.h:73-83 | so it is when nobody registers a client past the user between a check and its append, and always without a limit |
| Atomicity.AddIsAtomicWithoutSockets | jni/yftp/user_node.h:73-83 | so it is when all clients come in through the user |
| Atomicity.UncheckedAddBreaksAtomicity | jni/yftp/client_manager.cpp:69-74 | otherwise there is a run whose list no order of its operations explains |
| Atomicity.EverySequenceIsARun | jni/yftp/client_manager.cpp:26-114 | conversely every sequence of adds, refusals, deletes, clearings and searches that makes sense one at a time is what some run does |
| Atomicity.ResultsInOrder | jni/yftp/user_node.h:73-83 | in every run adds return what was decided, in the order in which they took effect, all but at most the last |
| Atomicity.RegistryAgrees | jni/yftp/client_manager.cpp:83-114 | after any interleaving, from any beginning, the list is the registrations alive, in the order in which they took effect |
| Atomicity.SearchFindsEarliestAlive | jni/yftp/client_manager.cpp:26-42 | in every interleaving a search ends with the earliest registration alive of a client with the handle, or null exactly when there is none |
| Atomicity.SomeThreadCanMove | jni/yftp/user_node.h:75-80 | the two locks never deadlock: while a thread is busy, some busy thread can go on |

## Left out

- Upper: changes ASCII letters only. What `toupper` does with other wide characters depends on the C library and is undefined for many.
- Parse: the decoder is a function of the line alone, and the widths of `int` and `size_t` are not modelled; a line has at most 2000 bytes, so no position in it comes near a limit.
- Parse: the byte loop, the call's answer and the whole call are methods of their own (ReceiveAll, AnswerLine, TakeCall), and so is the split of a line (SplitLine), where the source has two functions.
- QuotaHolds: the limit is fixed during a run; changing it while clients are added, which the source does without a lock, is not modelled.
- Quota: reading the list length without a lock while another thread changes the list is undefined in C++; here it reads the length before or after the change.
- Clients.ClientManager.DeleteClient: the debug-build assertion on a null client is not modelled.
- Clients.ClientManager.AddSocket: that the socket is open and its two addresses are parameters.
- Time stamps, the hammer value and all logging of the parser.
- What commands do once they are returned, authentication and data transfers (`ftp_server.cpp`, `client_node.cpp`), and the list of users (`user_manager.cpp`).
- Names, passwords, home directory, privileges and other plain fields of a user.
- Character conversion (`conversion.cpp`) and path handling (`common.cpp`), which are library calls.
- Sockets, threads and signals (`connection.cpp`, `server.cpp`, `ftpserve_native.cpp`).
- The Android user interface, the JNI layer, configuration and build files.
