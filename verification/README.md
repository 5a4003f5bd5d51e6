# StatePipes.OpcUaBridge: a model of the bridge's engine, with proofs

The bridge serves commands from a message broker against an OPC UA server: it reads, writes and calls in arrival order,
keeps clients' monitors alive from one OPC UA session to the next, discovers the server's address space, gives every
node's messages names of their own, and turns structured values into JSON and back. This project models that engine and
proves what its documentation and comments claim of it. What the bridge does by changing things step by step -- queues,
caches, cursors, trees -- is modelled as classes and loops, each proved against a specification whose own properties
are proved beside it; what several threads do at once is modelled as atomic steps, and proved for every interleaving.

| files | what they model | main results |
|---|---|---|
| `CommandSemantics.dfy`, `CommandExecutor.dfy` | the command queue and its batches | batching is invisible: whatever is asked of the server and sent to clients is what serving the commands one at a time gives |
| `CallSession.dfy` | the second session calls travel over, against concurrent disconnects | no leaked, doubly disposed or stale call session in any interleaving; which session each call is given, and that an opener gets there |
| `Discovery.dfy` | the batched breadth-first walk with continuation points | ends; meets exactly the reachable nodes, and returns each variable once and the methods of the objects |
| `StructureLayouts.dfy`, `StructureLayoutBuilder.dfy`, `EndlessLayouts.dfy`, `SelfDescription.dfy` | layouts of structure types, built with rollback over cyclic types, and their description | a layout exactly when all it reaches can be laid out; what nests without end has no values; descriptions closed under reference |
| `StructureCodec.dfy`, `CodecFormat.dfy`, `CodecRoundTrip.dfy`, `CodecDecoding.dfy`, `StructureEncoder.dfy`, `StructureDecoder.dfy` | the binary encoding of structured values, sections 5.2.5 and 5.2.6 of OPC UA Part 6 | the bytes of every value and the value of every body, byte for byte; round trips both ways with their exact conditions for all layouts, unique decoding, termination |
| `Monitors.dfy`, `OpcUaMonitorManager.dfy`, `MonitorCoordinator.dfy`, `MonitorQueue.dfy` | monitors: one session's items, the coordinator and its work queue | the session stays within the registry; every status is true, goes out under the name its client knows, and nothing else is sent; sessions end disposed; every wait ends once |
| `MonitorNotifications.dfy` | data changes on threads of their own, against everything the coordinator does | what is sent was live when looked up, and is still right when sent exactly if nothing that matters came between |
| `MonitorStore.dfy`, `MonitorRegistry.dfy`, `MonitorHistory.dfy` | the stored registry over many lives of the bridge, with a disk that may fail or a process that may die at any step | the file always holds some registry, the last whose save reached it, and the next life starts from that |
| `Names.dfy`, `MessageNames.dfy`, `OpcUaNaming.dfy`, `OpcUaBridgeService.dfy` | message names, their parsers, the catalog and the routing of commands | names are distinct, short enough and independent of order; parsers invert printers; every command key has one route |
| `StructureTypeNames.dfy` | names of structure types | exactly when two types share one |
| `Options.dfy`, `Sequences.dfy` | what the others share | |
| `DirectoryTree.dfy` | the explorer's tree of commands, compacted and shortened in place | ends with every command kept, just the directories that branch or hold a command, and names that spell the commands |

`dafny verify dfyconfig.toml` checks everything.

Recurring shapes. The world outside is an oracle that answers as it likes, and what it answered is kept: `Server.log`,
`Output.attempts`, `Manager.log`, `Store.fates` and `Coordinator.thrown` record every request, send, disk step and call
and how it went, so a contract can say that nothing but a recorded failure keeps a command, a monitor or a save from
its normal outcome. What a loop has done over a whole run is a ghost record beside it -- `Executor.runs`,
`Store.committed`, `Coordinator.acts`, the `Record` of registry, session, names and sends that `Coordinator.Run`
returns -- and the contracts tie the record to those logs, entry for entry. `Context` in `StructureCodec.dfy` holds the
runtime library's conversions, of which only `Lawful` is assumed, and, where types that are only read matter,
`ReadsLocally`. A command's `Link` says whether its request was served, and, if it failed, whether it had reached the
server.

Where the code does not do what its names suggest. The Set and Exec parsers slice a routing key between its prefix and
its suffix, and throw on `<namespace>.Set_Command` and `<namespace>.Exec_Command`, where the two share an underscore;
such a command is logged and never answered, although every other unlisted command is refused with a status
(`MessageNames.PrefixedParserThrows`, `OpcUaBridgeService.FailsOnlyOnSharedUnderscore`). The Monitor and Delete parser
cannot throw. A notification is sent after the registry's lock is released, so one that was right when its monitor was
looked up can go out after that monitor has been deleted, suspended or redirected; `MonitorNotifications` shows that
this happens, and exactly when (`RightWhenSentIff`, `LateSendHappens`). A call can be given a session that is disposed
already: a disconnect that began before the main session was there, and is through with the call session after the
opener has looked at its token, leaves the main session as the opener read it (`CallSession.DisposedIsHandedOut`;
`CallTravelsOver` says exactly when a session is open as it is handed out). The check of reply-tos lets a cancellation
through, and ends the round if it was not the coordinator's own; the monitors behind it stay as they were until the
next round (`MonitorCoordinator.AbortLeavesGone`; `EveryRoundIsWholeIff` says exactly when no round can leave one out).
A publishing interval under a millisecond passes validation and loses its fraction, so the lifetime asked for its
subscription comes to nothing, whatever the server then revises it to (`OpcUaMonitorManager.LifetimeOutlastsSession`).
`OpcUaNaming.ToStructureTypeNames` says that two data types never share a name; on every exchange `ns=2;s=A-B` and
`ns=2;s=A_B` do (`StructureTypeNames.NamesMeet`), and `StructureTypeNames.SameNameIff` says exactly which do. The
description of structures is therefore proved for names that may coincide.

## Model

| member | source | states |
|---|---|---|
| CommandExecutor.GetsChangeNothing | StatePipes.OpcUaBridge/CommandExecutor.cs:120-134 | served one at a time, a run of Gets leaves the server alone, so each is answered from the server as the run found it |
| CommandExecutor.SetsOneAtATime | StatePipes.OpcUaBridge/CommandExecutor.cs:136-154 | served one at a time, Sets of distinct nodes write each node once, from its own original content |
| CommandExecutor.SetAnswerUnaffected | StatePipes.OpcUaBridge/CommandExecutor.cs:99-111 | a Set whose node no other Set of its run names gets the answer it would get alone |
| CommandExecutor.OneWriteIsSetsInTurn | StatePipes.OpcUaBridge/CommandExecutor.cs:136-154 | one Write, applied in any order and possibly cut short, leaves the server as serving its Sets in turn |
| CommandExecutor.SameWrites | StatePipes.OpcUaBridge/CommandExecutor.cs:136-168 | what reaches the server through the one Write is what the Sets, in turn, would write, node by node |
| CommandExecutor.WriteStatusUnaffected | StatePipes.OpcUaBridge/CommandExecutor.cs:136-154 | every value's status is that of writing to the server as the run found it, whatever was applied before it |
| CommandExecutor.Scatter | StatePipes.OpcUaBridge/CommandExecutor.cs:148-152 | the statuses of the Write go back exactly to the Sets their values came from; refused Sets keep their refusal |
| CommandExecutor.RunsAreCommandsInTurn | StatePipes.OpcUaBridge/CommandExecutor.cs:55-118 | runs of whatever length, served one after the other, leave the server as serving their commands one at a time does, and give the same answers |
| CommandExecutor.SentOnceInOrder | StatePipes.OpcUaBridge/CommandExecutor.cs:55-133 | the sends that succeeded over all runs are exactly the answers recorded as sent, each once, in the order of the commands |
| CommandExecutor.ThrownIsFirstUnsent | StatePipes.OpcUaBridge/CommandExecutor.cs:64-70 | every send that threw was of the first answer of its run that did not go out |
| CommandExecutor.TalliesOn | StatePipes.OpcUaBridge/CommandExecutor.cs:55-74 | one more run served keeps the account of server, requests and sends true |
| CommandExecutor.SetsRecord | StatePipes.OpcUaBridge/CommandExecutor.cs:136-154 | what one Write made of a run of Sets is on record as serving them in turn |
| CommandExecutor.GetsRecord | StatePipes.OpcUaBridge/CommandExecutor.cs:120-134 | what one Read made of a run of Gets is on record as serving them in turn |
| CommandExecutor.RepeatedNodeWouldShow | StatePipes.OpcUaBridge/CommandExecutor.cs:99-111 | for any server, any request and any node written twice with two values that leave it different contents, two orders of applying the Write end differently: why no node may repeat in a run |
| CommandSemantics.ApplyInOrderOverlays | StatePipes.OpcUaBridge/CommandExecutor.cs:156-168 | values of distinct nodes applied in any order write each node once from its original content |
| CommandSemantics.EffectAllConcat | StatePipes.OpcUaBridge/CommandExecutor.cs:55-74 | serving one run after another is serving their concatenation |
| CommandSemantics.AnswerAtConcat | StatePipes.OpcUaBridge/CommandExecutor.cs:55-74 | answers to a later run are those given by the server the earlier runs left behind |
| CommandExecutor.Executor.CollectGets | StatePipes.OpcUaBridge/CommandExecutor.cs:84-97 | takes the longest run of Gets, of at most 500, from the head of the queue; what ended it is held over, nothing is lost or reordered |
| CommandExecutor.Executor.CollectSets | StatePipes.OpcUaBridge/CommandExecutor.cs:98-111 | takes the longest run of Sets in which no node repeats; what ended it is held over, nothing is lost or reordered |
| CommandExecutor.Executor.ServeGets | StatePipes.OpcUaBridge/CommandExecutor.cs:120-134 | one Read of the run's nodes in order; the run's answers, its request and every attempt to send join the record of what serving one at a time gives |
| CommandExecutor.Executor.EncodeSets | StatePipes.OpcUaBridge/CommandExecutor.cs:138-147 | exactly the encodable Sets go into the Write, in order; every other Set has its own refusal |
| CommandExecutor.Executor.Read | StatePipes.OpcUaBridge/CommandExecutor.cs:122-131 | one Read; each Get has the value of its own node, or the failure of the request |
| CommandExecutor.Executor.Write | StatePipes.OpcUaBridge/CommandExecutor.cs:148-168 | one Write if there is anything to write, none otherwise; a failed Write fails each of its Sets with its status |
| CommandExecutor.Executor.ServeSets | StatePipes.OpcUaBridge/CommandExecutor.cs:136-154 | the run's answers, its one Write and the server after it are those of serving its Sets in turn, and nothing else is asked or sent |
| CommandExecutor.Executor.ServeExec | StatePipes.OpcUaBridge/CommandExecutor.cs:194-218 | an Exec that can be encoded is called exactly once; one that cannot is answered without a call; a failed call may have run; nothing else is asked or sent |
| CommandExecutor.Executor.Call | StatePipes.OpcUaBridge/CommandExecutor.cs:194-218 | one call when the inputs can be encoded, none otherwise; the answer goes to the command's reply-to for its method, with the call's own result if it completed, its failure if it did not, and the refusal if the inputs could not be encoded; the server is as the call leaves it, or as it was |
| CommandExecutor.Executor.RunAlone | StatePipes.OpcUaBridge/CommandExecutor.cs:220-224 | work served alone is run once, with whatever effect it has, answers for itself when it completes and may have when it does not, and never stops the queue; only the shutdown cuts it off |
| CommandExecutor.Executor.Do | StatePipes.OpcUaBridge/CommandExecutor.cs:220-224 | the work is asked for once; effect and answer are certain when it completes, and open when it does not |
| CommandExecutor.Executor.Send | StatePipes.OpcUaBridge/CommandExecutor.cs:133 | answers go out in order, each once, until one throws; a run cut off by the shutdown sends none |
| CommandExecutor.Executor.ServeRun | StatePipes.OpcUaBridge/CommandExecutor.cs:80-118 | serves exactly the next commands of the backlog, as many as may share a request; only the run's own answers are lost when sending throws |
| CommandExecutor.Executor.ServeNext | StatePipes.OpcUaBridge/CommandExecutor.cs:60-71 | one turn of the reader: served commands, the held one and the queue together are always what was enqueued |
| CommandExecutor.Executor.ServeAll | StatePipes.OpcUaBridge/CommandExecutor.cs:55-74 | until the queue is completed or the bridge shuts down, served and waiting commands together are what was enqueued, and the record stays true |
| CommandExecutor.Executor.Run | StatePipes.OpcUaBridge/CommandExecutor.cs:55-74 | batching is invisible: the oldest commands are served in arrival order, none lost or repeated; server, requests made and every attempt to send since the start are those of serving them one at a time; what went out is, in order, one answer per command that has one; an attempt that threw is of the first answer of its run not sent; only a run whose sending threw, or that the shutdown cut off, which is the last, has answers missing; and every answer, and all that any command leaves changed, is what came of the one request of its run |
| CommandExecutor.AnswersFit | StatePipes.OpcUaBridge/CommandExecutor.cs:120-224 | for every kind of command: its answer names its item or method and its reply-to and says what the server said to the one request of its run -- the value, the status, the result of the call -- or that request's failure, or why there was none; and it changes what that request changes, and nothing else |
| CommandExecutor.OneRequest | StatePipes.OpcUaBridge/CommandExecutor.cs:84-218 | a run is of at most 500 commands and makes at most one request, which asks for nothing but what its commands want |
| CommandExecutor.JoinsWhen | StatePipes.OpcUaBridge/CommandExecutor.cs:84-111 | exactly the Gets go on a run of Gets, exactly the Sets of yet another node a run of Sets, and nothing a run of anything else |
| CallSession.OwnStep | StatePipes.OpcUaBridge/OpcUaClient.cs:66-84 | each access of a thread leaves it in a phase whose claims about the shared fields hold |
| CallSession.Stable | StatePipes.OpcUaBridge/OpcUaClient.cs:162-196 | what one thread does to the fields breaks no other thread's claims |
| CallSession.StillCompatible | StatePipes.OpcUaBridge/OpcUaClient.cs:162-196 | no access puts one call session into two hands, or the lock into two |
| CallSession.StepKeepsInv | StatePipes.OpcUaBridge/OpcUaClient.cs:66-196 | every atomic access, of any thread, keeps the protocol's invariant |
| CallSession.EveryInterleaving | StatePipes.OpcUaBridge/OpcUaClient.cs:66-196 | the invariant holds after every interleaving of disconnects, reconnects, calls and openers |
| CallSession.NoLeakNoDoubleDispose | StatePipes.OpcUaBridge/OpcUaClient.cs:66-84 | no call session is disposed twice or while installed; once nobody is mid-way an installed one belongs to the current main session, and every other one ever created was disposed exactly once |
| CallSession.LockExclusive | StatePipes.OpcUaBridge/OpcUaClient.cs:162-196 | at most one opener is between taking and releasing the lock |
| CallSession.EveryInterleavingFull | StatePipes.OpcUaBridge/OpcUaClient.cs:66-196 | in every interleaving, too: who knows which session knows the right one, a session of another main session is still being checked, and a token that is not the current one is cancelled or about to be |
| CallSession.CallTravelsOver | StatePipes.OpcUaBridge/OpcUaClient.cs:141-193 | the session a call is given was created for the main session its opener had read, and is the installed one, and open, if and only if no disconnect has taken it down since; the one found open always is, and one newly created is for the main session there still is |
| CallSession.DisposedIsHandedOut | StatePipes.OpcUaBridge/OpcUaClient.cs:141-193 | it does happen that it is disposed already: a disconnect that began before the main session was there can close it between the two checks and the call |
| CallSession.OpenerArrives | StatePipes.OpcUaBridge/OpcUaClient.cs:162-193 | each access of an opener that holds the lock, whose main session stays, whose token is not cancelled and whose requests succeed, brings it nearer to a call, whatever the other threads do meanwhile |
| CallSession.OpenerHasArrived | StatePipes.OpcUaBridge/OpcUaClient.cs:162-193 | so after at most nine of its own its caller has a session to call over |
| CallSession.LockedIsOnItsWay | StatePipes.OpcUaBridge/OpcUaClient.cs:162-170 | whoever has the lock while there is a main session is on its way: a current token is never cancelled |
| CallSession.CancelledNeverCalls | StatePipes.OpcUaBridge/OpcUaClient.cs:183-192 | an opener whose token is cancelled before it checks it never calls, whatever else happens |
| CallSession.OldTokensAreCancelled | StatePipes.OpcUaBridge/OpcUaClient.cs:68-71 | once no disconnect is about to cancel its token, exactly the tokens but the current one are cancelled |
| CallSession.OpenIsUsedAgain | StatePipes.OpcUaBridge/OpcUaClient.cs:170 | an open call session is used again, and no other is created |
| CallSession.FailedCallDrops | StatePipes.OpcUaBridge/OpcUaClient.cs:145-152 | a call that goes through leaves the session for the next; one that fails takes it down and disposes it, unless another has taken its place already, which it leaves alone |
| Discovery.BrowseAll | StatePipes.OpcUaBridge/OpcUaClient.cs:314-338 | whatever the paging, each node of a batch is paired with exactly the references the server delivers of it, in order; it ends |
| Discovery.PageRead | StatePipes.OpcUaBridge/OpcUaClient.cs:319-334 | what has been found of a node and what is still to come are together always what the server delivers of it |
| Discovery.ReadPages | StatePipes.OpcUaBridge/OpcUaClient.cs:319-334 | one round of pages: each reference goes with its own node, and continuation points stay in step with the nodes they belong to |
| Discovery.Note | StatePipes.OpcUaBridge/OpcUaClient.cs:282-293 | one reference: foreign and null targets are passed over, a method is recorded under an object, any other node is queued when first met |
| Discovery.NextBatch | StatePipes.OpcUaBridge/OpcUaClient.cs:280 | batches are taken off the front of the queue, 100 at a time |
| Discovery.BrowseBatch | StatePipes.OpcUaBridge/OpcUaClient.cs:277-295 | after a batch every reference of every node browsed so far has had its effect, and less remains to be done |
| Discovery.WalkEnds | StatePipes.OpcUaBridge/OpcUaClient.cs:276-296 | an empty queue means that everything reachable has been met |
| Discovery.Browse | StatePipes.OpcUaBridge/OpcUaClient.cs:268-297 | ends on every finite graph; meets exactly the reachable nodes, each with a class some reference gives it; every variable among them exactly once, and as a set exactly the methods that its objects refer to -- for certain where all references to a node agree on its class; no node browsed twice |
| Discovery.ClassesGiven | StatePipes.OpcUaBridge/OpcUaClient.cs:282-293 | a node is taken for what some reference to it says, and so for what all of them say where they agree |
| Discovery.ConsistentClasses | StatePipes.OpcUaBridge/OpcUaClient.cs:282-293 | on a server whose references agree about every node, the classes the walk goes by are the nodes' own |
| StructureLayoutBuilder.DecodableNeeds | StatePipes.OpcUaBridge/StructureLayoutBuilder.cs:33-58 | a structure can be laid out only if it is plain and each structure it nests can be |
| StructureLayoutBuilder.ClosedIsDecodable | StatePipes.OpcUaBridge/StructureLayoutBuilder.cs:33-58 | structures that are each plain and nest only each other can all be laid out, however they cycle |
| StructureLayoutBuilder.PlainAreDecodable | StatePipes.OpcUaBridge/StructureLayoutBuilder.cs:33-75 | plain structures have a layout, however they nest, if every field of theirs is a scalar or one-dimensional, of a type that can be read, and every concrete structure they nest is one of them |
| StructureLayoutBuilder.NamesDistinct | StatePipes.OpcUaBridge/StructureLayoutBuilder.cs:77-83 | names made unique one after the other are all distinct |
| StructureLayoutBuilder.Builder.UniqueFieldName | StatePipes.OpcUaBridge/StructureLayoutBuilder.cs:77-83 | a field keeps its sanitized name, or takes the first suffix from 2 on that no earlier field has |
| StructureLayoutBuilder.StructureLayout.AddField | StatePipes.OpcUaBridge/StructureLayout.cs:26 | appends to the fields of a layout that is already shared |
| StructureLayoutBuilder.Builder.Start | StatePipes.OpcUaBridge/StructureLayoutBuilder.cs:42-45 | the layout is in the cache before it has fields |
| StructureLayoutBuilder.Builder.Append | StatePipes.OpcUaBridge/StructureLayoutBuilder.cs:55 | adding a field keeps every other cached layout as it was |
| StructureLayoutBuilder.Builder.FillNext | StatePipes.OpcUaBridge/StructureLayoutBuilder.cs:46-56 | one field more, named apart from those before it, or the structure cannot be laid out |
| StructureLayoutBuilder.Builder.Fill | StatePipes.OpcUaBridge/StructureLayoutBuilder.cs:46-57 | fills in every field in order, or stops because the structure cannot be laid out |
| StructureLayoutBuilder.Builder.BuildField | StatePipes.OpcUaBridge/StructureLayoutBuilder.cs:60-75 | a field is laid out as its definition says, or fails for its value rank, an unreadable type, or a nested structure that cannot be laid out |
| StructureLayoutBuilder.Builder.BuildStructure | StatePipes.OpcUaBridge/StructureLayoutBuilder.cs:33-58 | returns what the cache holds afterwards; nulls in the cache are never wrong; ends on cyclic types |
| StructureLayoutBuilder.Builder.LayoutsDecodable | StatePipes.OpcUaBridge/StructureLayoutBuilder.cs:21-31 | in a consistent cache every layout belongs to a structure that can be laid out |
| StructureLayoutBuilder.Builder.Build | StatePipes.OpcUaBridge/StructureLayoutBuilder.cs:21-31 | a layout exactly when every structure reached is plain; afterwards the cache holds no wrong null, no incomplete layout and no pointer to a failed one |
| StructureLayoutBuilder.Builder.GraphIsUsable | StatePipes.OpcUaBridge/StructureLayoutBuilder.cs:21-83 | the cached layouts refer only to cached layouts and have distinct field names, which the codec relies on |
| StructureLayoutBuilder.Builder.GraphIsAsDefined | StatePipes.OpcUaBridge/StructureLayoutBuilder.cs:33-75 | a layout says what the definition says: the fields in order, arrays exactly where the value rank is 1 and scalars where it is -1, nested layouts exactly for concrete structures, and each built-in type |
| StructureEncoder.Visit | StatePipes.OpcUaBridge/StructureEncoder.cs:27-32 | one visit of a cyclic graph: success settles all it marks, failure comes with a path to a structure that cannot be written |
| StructureEncoder.CanEncode | StatePipes.OpcUaBridge/StructureEncoder.cs:25-32 | true exactly when every reachable layout names a binary encoding and has only supported built-in fields |
| StructureEncoder.UnknownProperty | StatePipes.OpcUaBridge/StructureEncoder.cs:68 | finds out whether the object has a property that is no field |
| StructureEncoder.TryWriteStructure | StatePipes.OpcUaBridge/StructureEncoder.cs:65-78 | appends exactly the specified encoding, or reports the specified refusal |
| StructureEncoder.TryWriteNull | StatePipes.OpcUaBridge/StructureEncoder.cs:81-86 | a missing value is written as a length of -1 where its kind of field may miss one, and refused elsewhere |
| StructureEncoder.TryWriteArray | StatePipes.OpcUaBridge/StructureEncoder.cs:88-106 | a length and the elements, or a base64 text for an array of Bytes |
| StructureEncoder.TryWriteScalar | StatePipes.OpcUaBridge/StructureEncoder.cs:108-115 | writes what the specification writes of one value: another structure's fields, or a converted built-in |
| StructureCodec.IntRoundTrip | StatePipes.OpcUaBridge/OpcUaValueEncoder.cs:117-125 | an integer in range survives its encoding at its width and signedness |
| StructureCodec.IntFromBytesInRange | StatePipes.OpcUaBridge/StructureDecoder.cs:86-113 | whatever bytes an integer is read from, it is in its type's range |
| StructureCodec.ByteAt | StatePipes.OpcUaBridge/StructureEncoder.cs:117-139 | the k-th byte written is the k-th digit to base 256, least significant first |
| StructureCodec.BytesRoundTrip | StatePipes.OpcUaBridge/StructureEncoder.cs:117-139 | little-endian bytes give the number back |
| CodecFormat.SpelledIs | StatePipes.OpcUaBridge/StructureEncoder.cs:117-139 | a number has one spelling of a given width: two's complement, least significant byte first, every byte a digit to base 256 |
| CodecFormat.IntByteAt | StatePipes.OpcUaBridge/StructureEncoder.cs:117-139 | of negative numbers, too, the k-th byte written is the k-th digit to base 256 |
| CodecFormat.BuiltInBytes | StatePipes.OpcUaBridge/OpcUaValueEncoder.cs:62-151 | for every type: which JSON is accepted, integers exactly within the type's own bounds, written out; what bytes it is written as, to the last one; and that exactly the numbers the type cannot hold are refused as out of range |
| CodecFormat.SupportedAre | StatePipes.OpcUaBridge/OpcUaValueEncoder.cs:24-27 | the types that can be written, by name, and that no value is accepted for any other |
| CodecFormat.StructureBytes | StatePipes.OpcUaBridge/StructureEncoder.cs:65-139 | for every value and all layouts, cyclic ones included: the bytes are the fields' in the order of the layout and nothing else, a nested structure's where it stands, an array's length as an Int32 and then its elements, a missing String, ByteString or array as FF FF FF FF; or the refusal is that of the first field, in order, that is refused |
| CodecFormat.BuiltInReads | StatePipes.OpcUaBridge/StructureDecoder.cs:86-113 | for every type that can be written: a value is read if and only if the bytes in front say it, by width, bounds and digits written out, and exactly those bytes are passed over |
| CodecFormat.TextReads | StatePipes.OpcUaBridge/StructureDecoder.cs:99-102 | a length of which the highest bit is set says there is no text; any other is followed by that many bytes, or nothing is read |
| CodecFormat.StructureReads | StatePipes.OpcUaBridge/StructureDecoder.cs:60-69 | a structure is read field by field in the order of its layout, each from where the one before it ended; the properties are exactly the values that are not null, under their fields' names |
| CodecFormat.ArrayReads | StatePipes.OpcUaBridge/StructureDecoder.cs:71-80 | an array is read as the length its first four bytes spell and that many elements, one after another, or not at all if one of them cannot be |
| CodecFormat.NoArrayRead | StatePipes.OpcUaBridge/StructureDecoder.cs:71-80 | without a length nothing is read; a negative one is null; one over the limit is not read |
| CodecRoundTrip.BuiltInRoundTrip | StatePipes.OpcUaBridge/OpcUaValueEncoder.cs:62-103 | every built-in value that can be written is read back in its published form, with what follows it left alone |
| CodecRoundTrip.StructureRoundTrip | StatePipes.OpcUaBridge/StructureEncoder.cs:65-78 | whatever layouts there are, decoding what a structure encoded to, followed by anything, gives its published form and the rest, or fails exactly when an array is over the limit |
| CodecRoundTrip.FieldsRoundTrip | StatePipes.OpcUaBridge/StructureEncoder.cs:69-76 | the same from any field on |
| CodecRoundTrip.ArrayRoundTrip | StatePipes.OpcUaBridge/StructureEncoder.cs:88-106 | arrays come back element by element, base64 Byte arrays as arrays of numbers |
| CodecRoundTrip.NormFieldAt | StatePipes.OpcUaBridge/StructureDecoder.cs:60-69 | of a value's fields exactly the non-null ones come back, each in its published form |
| CodecRoundTrip.NormItemAt | StatePipes.OpcUaBridge/StructureDecoder.cs:71-80 | an array comes back with every element in its place |
| CodecDecoding.DecodeEncode | StatePipes.OpcUaBridge/StructureEncoder.cs:34-78 | whatever layouts there are, encoding then decoding gives the value back if and only if no array is over the limit |
| CodecDecoding.DecodeEncodeFields | StatePipes.OpcUaBridge/StructureEncoder.cs:65-115 | field by field: nulls dropped, everything else in its published form, nothing added |
| CodecDecoding.StructureExtends | StatePipes.OpcUaBridge/StructureDecoder.cs:60-84 | reading does not depend on the bytes after what is read, for layouts of every type, if the stack's own readers do not |
| CodecDecoding.PrefixFree | StatePipes.OpcUaBridge/StructureDecoder.cs:37-57 | no accepted body is a proper prefix of another accepted body of the same layout, under the same assumption |
| CodecDecoding.StructureReencodes | StatePipes.OpcUaBridge/StructureEncoder.cs:65-115 | of the layouts the encoder supports, a value read can be written again exactly when it holds no null element and no infinite or not-a-number real |
| CodecDecoding.ReencodeDecoded | StatePipes.OpcUaBridge/StructureEncoder.cs:81-106 | for the layouts the encoder supports, a decoded value can be sent back if and only if it is free of those, and then decodes to itself |
| EndlessLayouts.EndlessHasNoValues | StatePipes.OpcUaBridge/StructureEncoder.cs:65-78 | a structure that contains itself as a scalar, however deep, has no encodable value |
| EndlessLayouts.EndlessHasNoRank | StatePipes.OpcUaBridge/StructureDecoder.cs:60-84 | no structure that contains itself as a scalar has a rank, in any ranking |
| EndlessLayouts.RankExists | StatePipes.OpcUaBridge/StructureDecoder.cs:60-84 | whatever the layouts, there is a ranking no higher than their number in which every other structure has a rank: recursion into structures ends on every body, but for those |
| EndlessLayouts.EncodedIsRanked | StatePipes.OpcUaBridge/StructureEncoder.cs:65-78 | whatever could be encoded has a rank, so the decoder does not go round for ever on what the encoder wrote |
| StructureDecoder.ReadOneBuiltIn | StatePipes.OpcUaBridge/StructureDecoder.cs:86-113 | every type is read off the cursor as specified, which passes over exactly the value read |
| StructureDecoder.ReadsFixed | StatePipes.OpcUaBridge/StructureDecoder.cs:88-101 | the types of a fixed width are what their bytes say, or nothing when there are too few |
| StructureDecoder.ReadFixed | StatePipes.OpcUaBridge/StructureDecoder.cs:88-101 | takes exactly the width of the type off the cursor and gives what those bytes say |
| StructureDecoder.ReadText | StatePipes.OpcUaBridge/StructureDecoder.cs:99-102 | a length and that many bytes; a negative length is a null |
| StructureDecoder.ReadOther | StatePipes.OpcUaBridge/StructureDecoder.cs:103-112 | a type that is only read moves the cursor by what the stack took for it |
| StructureDecoder.BinaryDecoder.ReadLengthPrefixed | StatePipes.OpcUaBridge/StructureDecoder.cs:99-102 | takes a length and that many bytes off the cursor, or fails |
| StructureDecoder.TryReadField | StatePipes.OpcUaBridge/StructureDecoder.cs:63-67 | reads what the layout says the field is, and nothing else |
| StructureDecoder.ReadStarts | StatePipes.OpcUaBridge/StructureDecoder.cs:60-69 | reading starts out towards the whole structure, or towards a field that nests without end |
| StructureDecoder.ReadOn | StatePipes.OpcUaBridge/StructureDecoder.cs:60-69 | one field read brings either one field nearer |
| StructureDecoder.TryReadStructure | StatePipes.OpcUaBridge/StructureDecoder.cs:60-69 | reads exactly what the specification reads, leaving null fields out; ends by bytes left, then stack left; a structure that nests without end is never read to its end |
| StructureDecoder.TryReadArray | StatePipes.OpcUaBridge/StructureDecoder.cs:71-80 | a negative length is null, one over the limit throws, and otherwise exactly that many elements are read |
| StructureDecoder.DecodeBody | StatePipes.OpcUaBridge/StructureDecoder.cs:37-57 | null unless the whole body matches the layout, and otherwise the value it stands for |
| SelfDescription.TypeSerialization.AddTypeByName | StatePipes.OpcUaBridge/SelfDescriptionBuilder.cs:261-272 | afterwards the type and, for an array, its element types down to the innermost are described |
| SelfDescription.TypeSerialization.AddStructureArray | StatePipes.OpcUaBridge/SelfDescriptionBuilder.cs:238-245 | an array of structures is described by its element structure |
| SelfDescription.TypeSerialization.AddFieldType | StatePipes.OpcUaBridge/SelfDescriptionBuilder.cs:230-235 | what a field's property is typed as is described before the description is complete |
| SelfDescription.TypeSerialization.AddProperty | StatePipes.OpcUaBridge/SelfDescriptionBuilder.cs:255-259 | the property is appended to its owner and to nothing else |
| SelfDescription.TypeSerialization.AddField | StatePipes.OpcUaBridge/SelfDescriptionBuilder.cs:228-235 | one more field of a structure is listed, and all it refers to is described |
| SelfDescription.TypeSerialization.AddStructure | StatePipes.OpcUaBridge/SelfDescriptionBuilder.cs:225-236 | ends on cyclic layouts; every type mentioned anywhere is itself described, and every structure described lists all its fields in order |
| SelfDescription.DescribedStructure | StatePipes.OpcUaBridge/SelfDescriptionBuilder.cs:218-259 | a finished description lists one property per field, in order and by name, typed as what the field holds, or as a type described as an array of that; exactly single values of value types are nullable |
| OpcUaMonitorManager.LifetimeOutlastsSession | StatePipes.OpcUaBridge/OpcUaMonitorManager.cs:167-168 | a subscription outlives any outage the session survives if and only if its publishing interval is at least a millisecond |
| OpcUaMonitorManager.LifetimeIsLeast | StatePipes.OpcUaBridge/OpcUaMonitorManager.cs:167-168 | the count is at least a hundred, and otherwise no greater than the session's timeout takes |
| OpcUaMonitorManager.Manager.ValidMeans | StatePipes.OpcUaBridge/OpcUaMonitorManager.cs:19-22 | the intervals with a subscription are exactly those of some entry, and a subscription's items exactly its entries' items |
| OpcUaMonitorManager.Manager.GetSubscription | StatePipes.OpcUaBridge/OpcUaMonitorManager.cs:170-191 | one subscription per interval, created on first use with one request; a failed creation leaves none |
| OpcUaMonitorManager.Manager.DeleteIfEmpty | StatePipes.OpcUaBridge/OpcUaMonitorManager.cs:193-199 | deletes exactly a subscription without items |
| OpcUaMonitorManager.Manager.RemoveEntry | StatePipes.OpcUaBridge/OpcUaMonitorManager.cs:153-160 | takes one entry out, asks for its item's deletion, and deletes its subscription if that was the last |
| OpcUaMonitorManager.Manager.MakeItems | StatePipes.OpcUaBridge/OpcUaMonitorManager.cs:82-88 | one item for every NodeId that can be parsed, a failure for every other |
| OpcUaMonitorManager.Manager.GiveUp | StatePipes.OpcUaBridge/OpcUaMonitorManager.cs:97-108 | after a failed request its items are out again, and an unused subscription with them |
| OpcUaMonitorManager.Manager.FailAll | StatePipes.OpcUaBridge/OpcUaMonitorManager.cs:97-108 | every item of a failed request gets the same result |
| OpcUaMonitorManager.Manager.FailAsked | StatePipes.OpcUaBridge/OpcUaMonitorManager.cs:97-108 | after a failed request every item of it has the one result, and items and unused subscription are gone |
| OpcUaMonitorManager.Manager.SettleAll | StatePipes.OpcUaBridge/OpcUaMonitorManager.cs:109-121 | refused items are dropped again, the others become entries, each told so |
| OpcUaMonitorManager.Manager.Ask | StatePipes.OpcUaBridge/OpcUaMonitorManager.cs:89-121 | one request for all the items of a group, and what becomes of them |
| OpcUaMonitorManager.Manager.Create | StatePipes.OpcUaBridge/OpcUaMonitorManager.cs:79-122 | every requested key gets exactly one result, the one the server gave; an entry exactly when Active; the requests made are exactly those it takes |
| OpcUaMonitorManager.AskedOfIs | StatePipes.OpcUaBridge/OpcUaMonitorManager.cs:82-88 | exactly the items whose NodeId can be parsed are asked for, with their own settings |
| OpcUaMonitorManager.Manager.AllTold | StatePipes.OpcUaBridge/OpcUaMonitorManager.cs:79-130 | every monitor of a creation is told what the server said in the last request on which that depends, and the requests are of its interval only |
| OpcUaMonitorManager.ToldMeans | StatePipes.OpcUaBridge/OpcUaMonitorManager.cs:97-151 | said in full: which request decides -- the failed creation of the subscription, the creation of the items with the monitor's settings, or the change of its settings unless setting the mode failed after that -- and that the monitor is Pending exactly if that request broke on a session no longer connected, Failed exactly if it broke on a connected one or refused the item, and Active otherwise |
| OpcUaMonitorManager.ToldStill | StatePipes.OpcUaBridge/OpcUaMonitorManager.cs:40-52 | requests of other monitors, before or after, change nothing of that |
| OpcUaMonitorManager.Manager.Modify | StatePipes.OpcUaBridge/OpcUaMonitorManager.cs:132-151 | one request with the new settings, and one more for the monitoring mode if the server has another; the first failure is the result; the entry stays |
| OpcUaMonitorManager.ModifiedTold | StatePipes.OpcUaBridge/OpcUaMonitorManager.cs:132-151 | whichever of the two requests decided it, the result is what the server said |
| OpcUaMonitorManager.Manager.Apply | StatePipes.OpcUaBridge/OpcUaMonitorManager.cs:24-38 | changes in place, or moves when the interval changed; the result is what the server said; no other entry changes; one subscription per interval throughout |
| OpcUaMonitorManager.Manager.Move | StatePipes.OpcUaBridge/OpcUaMonitorManager.cs:31-37 | whatever was there goes, and the monitor is created anew under its interval; it is in the session exactly when Active |
| OpcUaMonitorManager.Manager.CreateOne | StatePipes.OpcUaBridge/OpcUaMonitorManager.cs:31-37 | a creation of one touches no other entry, and its result is what the server said |
| OpcUaMonitorManager.Manager.Remove | StatePipes.OpcUaBridge/OpcUaMonitorManager.cs:54-62 | removes exactly that entry |
| OpcUaMonitorManager.Manager.RemoveAll | StatePipes.OpcUaBridge/OpcUaMonitorManager.cs:46 | removes exactly the entries about to be created again |
| Monitors.Partition | StatePipes.OpcUaBridge/OpcUaMonitorManager.cs:47 | one step of grouping: exactly the definitions that belong together come out, none twice and none left out |
| OpcUaMonitorManager.Manager.ApplyAll | StatePipes.OpcUaBridge/OpcUaMonitorManager.cs:40-52 | exactly one result per monitor, as the server said, and an entry exactly for those that are Active |
| OpcUaMonitorManager.Manager.Disable | StatePipes.OpcUaBridge/OpcUaMonitorManager.cs:64-72 | asks once for an item that exists to stop reporting, and changes nothing else |
| OpcUaMonitorManager.Manager.Dispose | StatePipes.OpcUaBridge/OpcUaMonitorManager.cs:254-268 | asks once for the deletion of each subscription, and leaves no subscription and no entry |
| MonitorStore.Store.Replace | StatePipes.OpcUaBridge/MonitorStore.cs:55-57 | a temporary file, then a rename: wherever a step fails or the process dies, the file is the old one or the new one; only dying after the rename leaves both open |
| MonitorStore.Store.Save | StatePipes.OpcUaBridge/MonitorStore.cs:47-65 | the file holds what it did or what was saved, and without trouble on the way it holds what was saved |
| MonitorStore.Store.Load | StatePipes.OpcUaBridge/MonitorStore.cs:28-44 | gives back exactly what was saved; a file that makes no sense is moved aside, not overwritten; when the disk will not give or move it there is nothing to start from, and the file is untouched |
| MonitorStore.ListsUnique | StatePipes.OpcUaBridge/MonitorStore.cs:33-35 | a saved list determines the monitors it was saved from |
| MonitorRegistry.AdmittedAll | StatePipes.OpcUaBridge/MonitorRegistry.cs:34-45 | exactly the stored monitors this bridge may answer are admitted |
| MonitorRegistry.Admit | StatePipes.OpcUaBridge/MonitorRegistry.cs:34-45 | admits in a loop what the above says |
| MonitorRegistry.Registry.Load | StatePipes.OpcUaBridge/MonitorRegistry.cs:30-48 | a reload gives the registry back minus what may not be answered and what has expired, and saves again exactly when that is less; no registry when the disk will not give the file |
| MonitorRegistry.Registry.Start | StatePipes.OpcUaBridge/MonitorRegistry.cs:33-47 | takes over a stored list as the above says, with one save if anything was dropped or has expired |
| MonitorRegistry.ReloadedIs | StatePipes.OpcUaBridge/MonitorRegistry.cs:33-47 | what is left differs from what was stored exactly when a monitor was dropped or has expired, which is when the code saves |
| MonitorRegistry.Registry.Save | StatePipes.OpcUaBridge/MonitorRegistry.cs:108 | every save writes the whole registry |
| MonitorRegistry.Registry.Values | StatePipes.OpcUaBridge/MonitorRegistry.cs:55-58 | lists every monitor once |
| MonitorRegistry.Registry.Upsert | StatePipes.OpcUaBridge/MonitorRegistry.cs:61-70 | adds or replaces, live again, and returns what was there; always saved, and in the file unless the disk gives trouble |
| MonitorRegistry.Registry.Remove | StatePipes.OpcUaBridge/MonitorRegistry.cs:72-80 | removes exactly that monitor and says whether it was there; saved exactly if it was |
| MonitorRegistry.Registry.Suspend | StatePipes.OpcUaBridge/MonitorRegistry.cs:82-90 | suspends exactly that monitor, keeping the time of an earlier suspension; saved exactly if it was live |
| MonitorRegistry.Registry.RemoveExpired | StatePipes.OpcUaBridge/MonitorRegistry.cs:93-106 | removes exactly the monitors whose suspension has lasted longer than the expiry; saved exactly if there are any |
| MonitorRegistry.StaysUntilExpired | StatePipes.OpcUaBridge/MonitorRegistry.cs:82-106 | a monitor suspended at one time, and again later or not, is still there at an expiry check up to the expiry after that time, and gone at any later one; a live one always stays |
| MonitorRegistry.ReloadKeeps | StatePipes.OpcUaBridge/MonitorRegistry.cs:33-47 | a reload gives back exactly the monitors that may be answered here and have not been suspended for longer than the expiry, as they were |
| MonitorHistory.FileIsLastCommitted | StatePipes.OpcUaBridge/MonitorStore.cs:47-65 | after any changes the file holds what it held first or the registry of the last step whose save reached it |
| MonitorHistory.UntroubledSaveCatchesUp | StatePipes.OpcUaBridge/MonitorStore.cs:47-65 | a save that meets no trouble brings the file up to date, whatever failed before it |
| MonitorHistory.UntroubledIsInStep | StatePipes.OpcUaBridge/MonitorRegistry.cs:61-108 | as long as nothing goes wrong the file reflects the registry after every change |
| MonitorHistory.UntroubledLife | StatePipes.OpcUaBridge/MonitorRegistry.cs:28-108 | so a life in which nothing goes wrong, from loading on, leaves the file reflecting its registry |
| MonitorHistory.ReloadGivesBack | StatePipes.OpcUaBridge/MonitorRegistry.cs:30-48 | and the next life starts from that registry, less what may not be answered and what has expired |
| MonitorHistory.Live | StatePipes.OpcUaBridge/MonitorRegistry.cs:28-108 | one life: load, changes, and an end wherever the process dies; every save reaches the file unless a step on the disk fails, and only dying leaves open whether it did |
| MonitorHistory.LiveOn | StatePipes.OpcUaBridge/MonitorRegistry.cs:28-108 | any number of lives, whatever fails and wherever each dies: each starts from what the file holds, and the file always holds what the last save to reach it wrote |
| MonitorCoordinator.StatusesReachEveryone | StatePipes.OpcUaBridge/MonitorCoordinator.cs:192-221 | the statuses of the unknown and of the known monitors are together one for every live monitor, at its own reply-to, and none for any other |
| MonitorCoordinator.StatusesTellPart | StatePipes.OpcUaBridge/MonitorCoordinator.cs:192-221 | one round of statuses tells each live monitor of its part once, at its own reply-to |
| MonitorCoordinator.StatusesTruthful | StatePipes.OpcUaBridge/MonitorCoordinator.cs:192-221 | each status of a rebuild is what became of its monitor |
| MonitorCoordinator.TruthTold | StatePipes.OpcUaBridge/MonitorCoordinator.cs:192-221 | every status of a rebuild tells the truth, and those told they are active are just the ones that have an item |
| MonitorCoordinator.CheckedStep | StatePipes.OpcUaBridge/MonitorCoordinator.cs:236-261 | one reply-to at a time, a check does to each monitor what checking it alone would |
| MonitorCoordinator.PartIsAllIff | StatePipes.OpcUaBridge/MonitorCoordinator.cs:236-261 | a check that gets to some reply-tos only does the whole work exactly when it misses none that is gone |
| MonitorCoordinator.EveryRoundIsWholeIff | StatePipes.OpcUaBridge/MonitorCoordinator.cs:236-261 | in every order of the groups a round suspends every live monitor whose reply-to is gone if and only if no live monitor's check aborts or none is gone |
| MonitorCoordinator.AbortLeavesGone | StatePipes.OpcUaBridge/MonitorCoordinator.cs:240-248 | it does happen: with one check aborting and another reply-to gone, the round that comes to the first one first leaves the other's monitors live |
| MonitorCoordinator.RoundEnds | StatePipes.OpcUaBridge/MonitorCoordinator.cs:236-261 | a round that has asked about everybody, with no check aborting, has done to every monitor what checking it alone would |
| MonitorCoordinator.RoundAborts | StatePipes.OpcUaBridge/MonitorCoordinator.cs:240-248 | a cancellation out of a check ends the round there: exactly the reply-tos asked about before it were dealt with |
| MonitorCoordinator.Coordinator.ApplyToSession | StatePipes.OpcUaBridge/MonitorCoordinator.cs:151-160 | without a session, or when the call throws, pending; otherwise what the server said; no other monitor's item comes or goes, and this one has an item if told that it is active |
| MonitorCoordinator.Coordinator.HandleMonitor | StatePipes.OpcUaBridge/MonitorCoordinator.cs:142-149 | the registry has the monitor, live, its node goes by the name it was asked for under, and its sender is told once, under that name, what became of applying it |
| MonitorCoordinator.Coordinator.HandleDelete | StatePipes.OpcUaBridge/MonitorCoordinator.cs:162-173 | gone from registry and session, with a request to delete the item it had; its node goes by the name asked for; Deleted if it was there, Failed if not, under that name |
| MonitorCoordinator.Coordinator.HandleDeleteUnlisted | StatePipes.OpcUaBridge/MonitorCoordinator.cs:175-186 | removes a stored monitor of the sender whose node goes by that name and says so, or, exactly if there is none, reports that; no name changes |
| MonitorCoordinator.Coordinator.Remember | StatePipes.OpcUaBridge/MonitorCoordinator.cs:196-198 | each node listed goes by the name it was last listed under, every other by the one it had, and the catalog is what is listed |
| MonitorCoordinator.NameIsLastGiven | StatePipes.OpcUaBridge/MonitorCoordinator.cs:281-289 | in every run of work a node goes by the name it was last listed or asked for under, whether it is listed still or not |
| MonitorCoordinator.NameIsKept | StatePipes.OpcUaBridge/MonitorCoordinator.cs:281-289 | and one that nobody mentions by the name it had |
| MonitorCoordinator.DeletedByItsName | StatePipes.OpcUaBridge/MonitorCoordinator.cs:175-186 | so in every run a Delete under the name a node was last listed or asked for under, collision suffix included, takes a monitor of the sender's of that name, and says so |
| MonitorCoordinator.Coordinator.BeginSession | StatePipes.OpcUaBridge/MonitorCoordinator.cs:194-201 | the old session is disposed, each of its subscriptions asked to go, what has expired is forgotten, and the new session starts empty |
| MonitorCoordinator.Coordinator.HandleSessionStart | StatePipes.OpcUaBridge/MonitorCoordinator.cs:192-221 | no suspended or uncatalogued monitor has an item; every live monitor gets exactly one status, a true one, under the name its node was last listed or asked for under, and suspended ones none |
| MonitorCoordinator.Coordinator.TellEveryone | StatePipes.OpcUaBridge/MonitorCoordinator.cs:212-220 | unknown nodes have failed; known ones are as the server said, or pending when the whole rebuild threw |
| MonitorCoordinator.Coordinator.EndSession | StatePipes.OpcUaBridge/MonitorCoordinator.cs:223-230 | the session is forgotten and disposed: nothing is left in it, and each of its subscriptions has been asked to go |
| MonitorCoordinator.Coordinator.Silence | StatePipes.OpcUaBridge/MonitorCoordinator.cs:250-259 | asks the session to stop the item and suspends the monitor even if that fails |
| MonitorCoordinator.Coordinator.HandleReplyToCheck | StatePipes.OpcUaBridge/MonitorCoordinator.cs:236-261 | asks about distinct reply-tos once each, suspends the live monitors of each that is gone, and asks for every item so suspended to stop; it gets to all of them if and only if no check throws a cancellation, and otherwise to exactly those before the first that does |
| MonitorCoordinator.Coordinator.RemoveExpired | StatePipes.OpcUaBridge/MonitorCoordinator.cs:263-266 | expired monitors leave registry and session, each item with a request to delete it |
| MonitorCoordinator.ClearedOn | StatePipes.OpcUaBridge/MonitorCoordinator.cs:263-266 | one monitor after the other, exactly the items of those gone leave the session |
| MonitorCoordinator.Coordinator.Handle | StatePipes.OpcUaBridge/MonitorCoordinator.cs:130-140 | each unit of work does to registry, session and names what it should, leaves the session's items within the registry's keys, and sends exactly what it should, which is true, under the right names: one answer to a request, one status per live monitor at a session start, nothing otherwise; a session that ends is left disposed |
| MonitorCoordinator.RecordedNext | StatePipes.OpcUaBridge/MonitorCoordinator.cs:84-97 | one more unit of work keeps the record of registry, session and what was sent |
| MonitorCoordinator.Coordinator.AmongNotifications | StatePipes.OpcUaBridge/MonitorCoordinator.cs:77-82 | in any interleaving of the coordinator's changes with notifying threads, registry and catalog are what the coordinator made them, and the guarantees for notifications hold |
| MonitorCoordinator.Coordinator.Run | StatePipes.OpcUaBridge/MonitorCoordinator.cs:84-118 | for every run of work, whatever fails: at every boundary the session's items are within the registry's keys; each unit did to registry, session and names, and sent, what it should, every status being what became of its monitor and every Delete of an unlisted node finding exactly the sender's monitors of that name; nothing else was sent; the last session is disposed |
| MonitorNotifications.StepKeepsInv | StatePipes.OpcUaBridge/MonitorCoordinator.cs:77-82 | each access, of the coordinator or of a notifying thread, keeps registry and history in agreement and every look-up true |
| MonitorNotifications.EveryInterleaving | StatePipes.OpcUaBridge/MonitorCoordinator.cs:77-82 | so after every interleaving of look-ups, catalog checks, sends and changes of registry and catalog |
| MonitorNotifications.SentWasLiveWhenLookedUp | StatePipes.OpcUaBridge/MonitorCoordinator.cs:79-81 | whatever is sent was looked up before, when its monitor was live and its latest Monitor command asked for it there |
| MonitorNotifications.RightWhenSentIff | StatePipes.OpcUaBridge/MonitorCoordinator.cs:77-82 | it is right as it is sent if and only if the last that was done to its monitor between look-up and send, if anything, asked for the same place |
| MonitorNotifications.LateOnlyIfTouched | StatePipes.OpcUaBridge/MonitorCoordinator.cs:77-82 | a notification that is late has an Asked, Deleted or Suspended of its monitor between look-up and send |
| MonitorNotifications.LateSendHappens | StatePipes.OpcUaBridge/MonitorCoordinator.cs:77-82 | it does happen: any live monitor deleted, suspended or redirected in between is still notified at the old place |
| MonitorNotifications.SentWasListed | StatePipes.OpcUaBridge/MonitorCoordinator.cs:77-82 | in every interleaving what is sent is of a node that was in the catalog at some moment between look-up and send |
| MonitorNotifications.UndisturbedIsSentIff | StatePipes.OpcUaBridge/MonitorCoordinator.cs:77-82 | undisturbed, a data change is sent to where its monitor reports if and only if the monitor is there, is not suspended, and its node is listed |
| MonitorNotifications.ReaderAlone | StatePipes.OpcUaBridge/MonitorRegistry.cs:50-53 | notifications change neither registry nor catalog |
| MonitorQueue.StepKeepsInv | StatePipes.OpcUaBridge/MonitorCoordinator.cs:65-118 | each atomic step leaves every piece of work in exactly one place: waiting, in hand, or ended |
| MonitorQueue.EveryRun | StatePipes.OpcUaBridge/MonitorCoordinator.cs:65-118 | so after every run |
| MonitorQueue.EndedExactlyOnce | StatePipes.OpcUaBridge/MonitorCoordinator.cs:84-118 | nobody's wait is completed or cancelled twice, and once the reader is gone everybody's has been, however late it was offered |
| MonitorQueue.HandledIff | StatePipes.OpcUaBridge/MonitorCoordinator.cs:92-108 | in every run a wait is completed exactly if the handling of its work came to its end |
| MonitorQueue.CancelledByShutdown | StatePipes.OpcUaBridge/MonitorCoordinator.cs:97-118 | and none is cancelled before the shutdown has begun |
| MonitorQueue.WorkIsHandledInOrder | StatePipes.OpcUaBridge/MonitorCoordinator.cs:84-97 | work is handled in the order it was offered |
| MonitorQueue.WaitingGetsHandled | StatePipes.OpcUaBridge/MonitorCoordinator.cs:90-95 | while the reader runs, whatever waits can come to be handled |
| MonitorQueue.OfferedGetsHandled | StatePipes.OpcUaBridge/MonitorCoordinator.cs:65-68 | and whatever is offered while it runs is taken in, and can |
| MonitorQueue.ShutdownEnds | StatePipes.OpcUaBridge/MonitorCoordinator.cs:111-118 | from any state the shutdown can run to its end |
| MessageNames.FullNamesDistinct | StatePipes.OpcUaBridge/OpcUaNaming.cs:27-45 | two messages share a full name only if they are the same message of the same names |
| MessageNames.KindsDistinct | StatePipes.OpcUaBridge/OpcUaNaming.cs:15-35 | messages of different kinds never have one type name, whatever their bases |
| MessageNames.FromCommandFullName | StatePipes.OpcUaBridge/OpcUaNaming.cs:59-67 | the Monitor and Delete parser never throws |
| MessageNames.CommandParserInverts | StatePipes.OpcUaBridge/OpcUaNaming.cs:59-67 | it finds names exactly in the Monitor and Delete commands printed from them |
| MessageNames.PrefixedParserInverts | StatePipes.OpcUaBridge/OpcUaNaming.cs:73-87 | the Set and Exec parsers find names exactly in the commands printed from them |
| MessageNames.PrefixedParserThrows | StatePipes.OpcUaBridge/OpcUaNaming.cs:81-87 | they throw on exactly one text each, where prefix and suffix share an underscore |
| MessageNames.Spelled | StatePipes.OpcUaBridge/OpcUaNaming.cs:13-45 | the full names of all nine messages, as they are spelled |
| MessageNames.ParsedAsSpelled | StatePipes.OpcUaBridge/OpcUaNaming.cs:59-87 | the four parsed commands, as they are spelled, give back the names they are of |
| OpcUaNaming.Fit | StatePipes.OpcUaBridge/OpcUaNaming.cs:162-167 | unchanged if it fits, and otherwise exactly as long as it may be: a prefix of the text, an underscore and the hash |
| OpcUaNaming.NamespaceText | StatePipes.OpcUaBridge/OpcUaNaming.cs:155-156 | segment by segment between the dots: sanitized, with an underscore where there is nothing; the dots stay |
| OpcUaNaming.MessageNamespace | StatePipes.OpcUaBridge/OpcUaNaming.cs:114-118 | at most 160 characters |
| OpcUaNaming.ToMessageNames | StatePipes.OpcUaBridge/OpcUaNaming.cs:132-140 | `Get_` and the base text, if that leaves room for the longest message and a suffix; otherwise as long as it may be, still with its `Get_`, ending in the hash of its source |
| OpcUaNaming.ShortenedApart | StatePipes.OpcUaBridge/OpcUaNaming.cs:132-167 | names both cut short differ if what they are hashed from hashes differently, whatever prefix they share |
| StructureTypeNames.ToStructureTypeNames | StatePipes.OpcUaBridge/OpcUaNaming.cs:147-153 | namespace, dot and name of a structure type fit a routing key |
| StructureTypeNames.TypeNamesText | StatePipes.OpcUaBridge/OpcUaNaming.cs:142-167 | the names as they are spelled, index, letter and sanitized identifier, and what a name that is cut short ends in |
| StructureTypeNames.SameTextIff | StatePipes.OpcUaBridge/OpcUaNaming.cs:130 | two NodeIds give one base text exactly when they differ at most in characters that sanitizing replaces |
| StructureTypeNames.WrittenApart | StatePipes.OpcUaBridge/OpcUaNaming.cs:151 | different NodeIds are written differently, so what is hashed tells them all apart |
| StructureTypeNames.SameNameIff | StatePipes.OpcUaBridge/OpcUaNaming.cs:142-153 | two structure types have one name if and only if index, type and sanitized identifier agree, when neither is cut short; if both are, what is kept of them and their hashes; if one is, exactly when the other's text is what this one was made into |
| StructureTypeNames.NamesMeet | StatePipes.OpcUaBridge/OpcUaNaming.cs:142-153 | on every exchange `ns=2;s=A-B` and `ns=2;s=A_B` get one name |
| OpcUaNaming.FullNamesFit | StatePipes.OpcUaBridge/OpcUaNaming.cs:107-140 | every full name of every kind, with a collision suffix up to 999, is at most 255 characters |
| OpcUaNaming.FullNamesAreAscii | StatePipes.OpcUaBridge/OpcUaNaming.cs:107-140 | every full name, suffixed or not, is ASCII, so the limit on characters is one on bytes |
| Names.Sanitize | StatePipes.OpcUaBridge/OpcUaNaming.cs:233-238 | character by character: ASCII letters and digits stay, every other becomes an underscore |
| Names.DecimalInjective | StatePipes.OpcUaBridge/OpcUaNaming.cs:211 | different suffixes are written differently |
| Names.DecimalValue | StatePipes.OpcUaBridge/OpcUaNaming.cs:209-211 | a suffix is written in decimal |
| Names.FirstFreeSuffix | StatePipes.OpcUaBridge/OpcUaNaming.cs:209-212 | the first free suffix from 2 on; the search ends because only finitely many names are taken |
| OpcUaNaming.OrderByText | StatePipes.OpcUaBridge/OpcUaNaming.cs:200 | the requests in text order, none lost or added |
| OpcUaNaming.SortedUnique | StatePipes.OpcUaBridge/OpcUaNaming.cs:200 | requests with distinct texts have only one order |
| OpcUaNaming.LeqIsOrdinal | StatePipes.OpcUaBridge/OpcUaNaming.cs:200 | text order is ordinal: by the first character that differs, or by length |
| OpcUaNaming.AssignsDeterministic | StatePipes.OpcUaBridge/OpcUaNaming.cs:203-215 | one step of the assignment has one outcome |
| OpcUaNaming.HeldIffEarlier | StatePipes.OpcUaBridge/OpcUaNaming.cs:207 | a base name is held exactly when an earlier request has it |
| OpcUaNaming.NextName | StatePipes.OpcUaBridge/OpcUaNaming.cs:205-215 | the name taken next is nobody else's, now or by its own base |
| OpcUaNaming.NextAssigned | StatePipes.OpcUaBridge/OpcUaNaming.cs:205-215 | one step keeps names distinct and right |
| OpcUaNaming.NameFor | StatePipes.OpcUaBridge/OpcUaNaming.cs:205-213 | the base name if nobody holds it, the first free suffix otherwise, which is 2 if that is free |
| OpcUaNaming.AssignSorted | StatePipes.OpcUaBridge/OpcUaNaming.cs:203-217 | the loop computes exactly the specified assignment, never adding a key twice |
| OpcUaNaming.AssignUnique | StatePipes.OpcUaBridge/OpcUaNaming.cs:197-218 | whatever texts coincide, names are distinct; the first of each base name in text order keeps it; no suffixed name is anybody's base name |
| OpcUaNaming.AssignmentIgnoresOrder | StatePipes.OpcUaBridge/OpcUaNaming.cs:197-218 | when texts tell requests apart, the names do not depend on the order the requests come in |
| OpcUaBridgeService.AssignmentIsAssigned | StatePipes.OpcUaBridge/OpcUaNaming.cs:175-218 | what the assignment gives out is what the catalog needs |
| OpcUaBridgeService.KeysDistinct | StatePipes.OpcUaBridge/OpcUaBridgeService.cs:88-97 | assigned names give distinct keys of each kind |
| OpcUaBridgeService.ToDictionary | StatePipes.OpcUaBridge/OpcUaBridgeService.cs:91-95 | throws exactly when two of the listed have one key, and otherwise indexes all of them |
| OpcUaBridgeService.Create | StatePipes.OpcUaBridge/OpcUaBridgeService.cs:88-97 | building the catalog from assigned names never throws; each table holds exactly its own commands |
| OpcUaBridgeService.InTable | StatePipes.OpcUaBridge/OpcUaBridgeService.cs:91-95 | a table holds a command name exactly if it is of the table's kind and of listed names |
| OpcUaBridgeService.OneTable | StatePipes.OpcUaBridge/OpcUaBridgeService.cs:173-195 | a command name is in its own kind's table or in none |
| OpcUaBridgeService.ItemRoutes | StatePipes.OpcUaBridge/OpcUaBridgeService.cs:173-193 | every command of a listed item goes to that item; a Set of a read-only one is refused as readable |
| OpcUaBridgeService.MethodRoutes | StatePipes.OpcUaBridge/OpcUaBridgeService.cs:190-193 | every Exec of a listed method goes to that method |
| OpcUaBridgeService.UnlistedRoutes | StatePipes.OpcUaBridge/OpcUaBridgeService.cs:194-222 | a command for something not listed is refused in its own kind's terms, with the names it was printed from; a Delete still deletes |
| OpcUaBridgeService.FailsOnlyOnSharedUnderscore | StatePipes.OpcUaBridge/OpcUaBridgeService.cs:194-231 | an unlisted command goes unanswered by an exception exactly on two texts |
| OpcUaBridgeService.Service.SetCatalog | StatePipes.OpcUaBridge/OpcUaBridgeService.cs:100-104 | the catalog is swapped for one that holds exactly what is listed |
| OpcUaBridgeService.Service.ConsumeCommand | StatePipes.OpcUaBridge/OpcUaBridgeService.cs:163-232 | the self description is answered at once; every other command that may be answered is queued behind those before it, the rest dropped |
| OpcUaBridgeService.Service.Receive | StatePipes.OpcUaBridge/OpcUaBridgeService.cs:163-232 | commands reach the executor in arrival order, each at most once; the self description goes to exactly the readable reply-tos of those who asked for it |
| OpcUaBridgeService.AdmittedInOrder | StatePipes.OpcUaBridge/OpcUaBridgeService.cs:163-232 | just these arrivals reach the executor, in their order: a Get of a listed item with any reply-to that can be read, and any other command but the self description that is known or refused, with a reply-to that is allowed |
| DirectoryTree.StuckIsNormal | StatePipes.Explorer/NonWebClasses/DirectoryListForCommands.cs:57-82 | compacting changes nothing exactly when no directory is empty or holds one directory and nothing else |
| DirectoryTree.CompactFewer | StatePipes.Explorer/NonWebClasses/DirectoryListForCommands.cs:57-82 | one step takes out exactly one directory, keeps every command, and names still go on from their parents' |
| DirectoryTree.CompactStays | StatePipes.Explorer/NonWebClasses/DirectoryListForCommands.cs:57-82 | no step changes which directories hold a command themselves or two directories with commands in them |
| DirectoryTree.NormalStays | StatePipes.Explorer/NonWebClasses/DirectoryListForCommands.cs:57-82 | and where nothing is left to compact there are no others |
| DirectoryTree.LiftedFewer | StatePipes.Explorer/NonWebClasses/DirectoryListForCommands.cs:72-77 | the one directory of a directory may take its place: its name goes on from its new parent's |
| DirectoryTree.ShortenedSpells | StatePipes.Explorer/NonWebClasses/DirectoryListForCommands.cs:83-90 | after shortening, joining names with dots down to a command spells its full name |
| DirectoryTree.ShortenedAllKeeps | StatePipes.Explorer/NonWebClasses/DirectoryListForCommands.cs:83-90 | shortening changes names only |
| DirectoryTree.Directory.Leave | StatePipes.Explorer/NonWebClasses/DirectoryListForCommands.cs:67-71 | an empty directory is taken out of its parent, and nothing else moves |
| DirectoryTree.Directory.Lift | StatePipes.Explorer/NonWebClasses/DirectoryListForCommands.cs:72-77 | the one directory inside is appended to the parent's list and its holder taken out |
| DirectoryTree.Directory.Compact | StatePipes.Explorer/NonWebClasses/DirectoryListForCommands.cs:65-82 | in place exactly the specified step, saying whether there was one |
| DirectoryTree.Directory.CompactSubdirectories | StatePipes.Explorer/NonWebClasses/DirectoryListForCommands.cs:57-64 | compacts the first child that can be |
| DirectoryTree.Directory.Shorten | StatePipes.Explorer/NonWebClasses/DirectoryListForCommands.cs:83-90 | in place exactly the specified shortening |
| DirectoryTree.StepCompacts | StatePipes.Explorer/NonWebClasses/DirectoryListForCommands.cs:44 | repeating steps ends: each is smaller, and a step that does nothing means normal form |
| DirectoryTree.CompactFully | StatePipes.Explorer/NonWebClasses/DirectoryListForCommands.cs:44 | the loop ends in normal form with every command kept |
| DirectoryTree.Arrange | StatePipes.Explorer/NonWebClasses/DirectoryListForCommands.cs:42-46 | compacting then shortening: the same commands; of the directories just those that hold a command themselves or two directories with commands in them, whatever order the steps came in; and names that spell the commands |

## Left out

- Broker channels, heartbeats, certificates, the OPC UA stack, the PLC simulator and the generated clients: I/O and libraries around the engine.
- Argument and result bodies of Exec (`ExecResultBody`, `ExecArgumentEncoder`, `MethodArgumentNaming`), `MonitorParameters` validation and the JSON bodies the bridge sends: one-branch checks and plumbing.
- `OpcUaNaming.AssignUniqueMethodNames`' naming a shared method with its object: it only chooses base texts; the assignment that follows is modelled for any of them.
- Attribute reads after discovery, and the filters on what is exposed: per-node checks.
- A Browse that throws, or a cancelled discovery: the whole walk is abandoned and its results with it.
- CommandExecutor.Executor.RunAlone: what the work does is one function of the server, and whatever it sends counts as one answer, certain when it completes; Monitor and Delete work is modelled in its own right in `MonitorCoordinator`.
- CommandExecutor.Executor.Run: the queue's completion and the shutdown are oracles, and only these commands change the server between two of its requests.
- CallSession.NoLeakNoDoubleDispose: main sessions are told apart but their own disposal is not tracked, and one thread is the only one that connects.
- CallSession.CallTravelsOver: that a call over a disposed session fails is the stack's doing; what a failed call does to the session is `FailedCallDrops`.
- CodecDecoding.DecodeEncode: JSON text, base64, dates, Guids and the rounding of reals are oracles that satisfy `Context.Lawful`; of UTF-8 only the texts in the value are taken to survive it (`Representable`); the stack's limits on single strings and byte strings are not modelled, its limit on arrays is.
- CodecDecoding.DecodeEncodeFields: an object's properties are a map, so their order in the text is not modelled.
- StructureDecoder.ReadOther: the types the bridge reads but never writes (Variant, ExtensionObject, NodeId, text with a locale and the like) are read by the stack, here an oracle that gives a value and its width; `CodecDecoding.StructureExtends` and `CodecDecoding.PrefixFree` assume that it reads locally.
- CodecDecoding.ReencodeDecoded: for layouts that `CanEncode` accepts, since no others are written.
- `StructureEncoder.TryEncode` and `StructureDecoder.ToJToken` on a variable that is itself an array of structures: each element goes through the modelled member on its own.
- StructureDecoder.TryReadStructure: the runtime's stack is taken to be as deep as structures that nest to an end nest in each other as scalars, which is at most as deep as there are structures; recursion through arrays, which takes bytes, is not counted. Where a structure nests without end the stack may run out, which ends the process rather than the reading; both count as not read.
- StructureLayoutBuilder.Builder.Build: `describe` is a fixed map, as it is for the one discovery a builder lives for, and does not throw.
- SelfDescription.TypeSerialization.AddProperty: the property of a built-in field is added after its type's description rather than before it; the finished description is the same.
- OpcUaMonitorManager.Manager.Create: failures of the stack are ServiceResultExceptions, as the code assumes; of a monitor's parameters only the publishing interval is looked into, the others travel as one number.
- OpcUaMonitorManager.Manager.Modify: whether the second request is made depends on the mode the server reports, which is an oracle.
- OpcUaMonitorManager.LifetimeOutlastsSession: of the interval asked for, not the one the server revises it to.
- MonitorNotifications.EveryInterleaving: what a notification carries is not modelled, only whose it is and where it goes; sending it does not fail.
- MonitorCoordinator.Coordinator.HandleSessionStart: discovery lists each node once; on a list that held one twice the source would throw after remembering its names.
- MonitorCoordinator.Coordinator.HandleDeleteUnlisted: names stand for themselves rather than for the full name of their Delete command, which `MessageNames.FullNamesDistinct` shows to be the same; which of several monitors of one sender and name goes is the registry's order, and left open.
- MonitorCoordinator.Coordinator.HandleReplyToCheck: a reply-to's existence does not change during one round, in which each is asked about at most once; the order of the groups is any.
- MonitorCoordinator.Coordinator.Handle: sending a status does not throw; a status whose sending throws is logged by the reader like any failure of the work it is part of, and the statuses after it in a rebuild are lost.
- MonitorCoordinator.Coordinator.EndSession: closing a session throws nothing but what the stack does, which its disposal handles.
- MonitorCoordinator.Coordinator.Run: cancellation in the middle of a unit of work is modelled in `MonitorQueue`, where it ends the run; the process dying inside a save is modelled in `MonitorHistory`, while a run here goes on.
- MonitorStore.ListsUnique: the JSON round trip of one stored entry is assumed.
- MonitorStore.Store.Load: a file set aside is kept under another name, which nothing reads again and which is not part of this model.
- StructureTypeNames.SameNameIff: an identifier is its text, and NodeIds have one of the four types the standard knows.
- OpcUaNaming.FullNamesFit: the hash is any eight hexadecimal characters; suffixes over 999 may exceed the limit, as in the code.
- OpcUaBridgeService.Service.ConsumeCommand: what the checks on a reply-to find comes with the arrival; whether a Monitor's parameters can be parsed only decides which of two pieces of work is queued in its place, and is not modelled.
- DirectoryTree.Arrange: starts from the tree the constructor has built; that the constructor itself keeps every command is not claimed, since one whose name extends another's is dropped there.
