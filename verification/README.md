# Proofs about wldbg

wldbg sits between a Wayland client and a Wayland server. It reads messages from one socket, runs them through
passes, and writes them to the other. This project models the code on that path and the tables the passes keep, and
proves what a user of the tool relies on: the peers see what they would have seen without it, the wire format is
read as it was written, and the tables say what the messages said.

| files | modelled code |
|---|---|
| `RingBuffer.dfy` | the 4096-byte ring with free-running 32-bit head and tail, and its iovec views |
| `Ledger.dfy`, `Connection.dfy` | a connection: queued bytes and descriptors, partial and failing sends, reads |
| `WlMap.dfy`, `WlList.dfy`, `IdsMap.dfy` | the id map with its tagged free list, the linked list, the growing array, the sparse id tables |
| `Signature.dfy`, `Wire.dfy` | message signatures; the wire format of chapter 4 of the Wayland protocol documentation, as a relation between arguments and bytes and as a parser |
| `Closure.dfy`, `Send.dfy`, `RoundTrip.dfy`, `Channel.dfy` | marshalling, sizing, serializing, demarshalling and sending messages; runs of them from one connection to another |
| `Pipeline.dfy`, `Proxy.dfy`, `ProxyRun.dfy` | passes, the dispatch path of the proxy, whole runs of it |
| `ParseMessage.dfy`, `Resolve.dfy` | wldbg's own reader of messages; the resolve pass and its id-to-interface table |
| `ObjInfo.dfy`, `Registry.dfy`, `RegistryRun.dfy` | surface, buffer, seat and xdg surface infos, the registry that owns them, whole runs of it |

Objects whose fields the C code updates are classes here with the same fields. Ghost fields hold what the fields mean:
a `Ledger` is everything that ever went through the output of a connection, `history` the requests an info has seen,
`view` the resolve table as a map. Every step the kernel or a peer may take is an arbitrary choice: which calls
`Socket.SendMsg` refuses is fixed by its `refusals`, of which nothing is known, and of the others it takes any non-empty
prefix; `Recv` is whatever a read comes back with. What a successful or failing result means is told in terms of
`Socket.Refused`, the number of calls refused so far.

Main results, and what they rest on:

- Transparency: `ProxyRuns.Proxied`, from new connections over any script of reads. It rests on `ProxyRuns.Run`,
  `ProxyRuns.SentIsDue`, `ProxyRuns.SentTranscript` and `ProxyRuns.EveryByteArrives`, on the lanes that `Proxy.Wldbg`
  keeps through every dispatch, on `Ledger.Balanced`, and on the ring's `Contents`.
- Round trip and exactness of the wire format: `RoundTrip.Deliver`, `RoundTrip.ClosureRoundTrip`,
  `RoundTrip.Reencode` and `Wire.ParseExact`, with `Closures.Demarshal` and `Closures.Serialize` proved to
  compute what those are about, and `Wire.ImagesLaid` saying byte by byte what that is.
- End to end: `Channels.Convey`. Any run of closures sent on one connection, cut into pieces by the kernel and read on
  another, comes out in order with its descriptors.
- Descriptors are neither lost nor late: `Sending.RunActs`, with the exact conditions in `Sending.SendClosure` and
  `Ledgers.Ledger.SendLoses`, and a run that does lose some in `Sending.LossHappens`.
- The resolve table is the fold of the messages seen: `Resolve.ResolveAll`, with `Resolve.PassAll`,
  `Resolve.TablesSay` and `Resolve.EffectIs`, which tells from the words of a message what it enters.
- The registry of infos is coherent over well-typed runs, and exact about which infos it loses: `RegistryRuns.RunAll`,
  `RegistryRuns.LifeSinceCreation`, `RegistryRuns.SlotShows` and `RegistryRuns.Session`.

Places where the code does less than its comments or its names promise; each has its exact condition here:

- `get_new_ids` says it loops over several new ids, but restarts at a position relative to the last search; with two
  of them the loop never ends (`Resolve.NewIdsLoopEnds`).
- `get_new_id` takes one word for every character before the new id, also for digits, `?` and descriptors, which take
  none on the wire (`Resolve.ScanExact`).
- The argument iterator takes one word for a descriptor, which has none (`ParseMessage.IteratorExact`).
- `wl_map_remove` accepts an id that is not live and then ties the free list into a cycle (`WlMaps.RemoveExact`).
- `wl_connection_copy_fds` copies from the unmasked tail (`Connection.FlatCopyExact`).
- `wl_closure_send` queues the descriptors of a message before it finds that the message does not fit the ring. A caller
  is safe if the message fits, or has no descriptors, or bytes already wait and with them at most 28 descriptors, its own
  included (`Sending.Safe`); otherwise the descriptors are left with no byte to carry them exactly if the socket takes
  everything (`Sending.SendClosure`). Once more than 28 wait the next send drops some (`Ledgers.Ledger.SendLoses`), and
  two such messages suffice (`Sending.LossRun`, `Sending.LossHappens`).
- An info put in an occupied slot makes the registry forget the older one, which is then never freed; as
  many infos stay behind as that happened (`RegistryRuns.RunAll`, `RegistryRuns.Session`).

`hide` statements only narrow what the verifier looks at. Lemmas on which Dafny would try induction by itself say
`{:induction false}`: their inductions are the recursive calls written out.

## Model

| member | source | states |
|---|---|---|
| RingBuffer.WlBuffer.Put | wayland/connection.c:63-87 | fails exactly for more than 4096 bytes; else fills the cells from the head on and, if the bytes fit, appends them to the queue, across wrap-around of ring and 32-bit head; it keeps the ring in order exactly when they fit |
| RingBuffer.PutAppends | wayland/connection.c:63-87 | why: laying bytes down at the masked head appends them for every head and tail, also past 2^32 |
| RingBuffer.FilledAppends | wayland/connection.c:63-87 | bytes laid down behind the stored ones never overwrite an unread one |
| RingBuffer.WrapCopies | wayland/connection.c:78-82 | the two copies of the wrapped case lay the bytes down in queue order |
| RingBuffer.WlBuffer.PutIov | wayland/connection.c:89-111 | lists the free cells in fill order; all cells when the ring is full |
| RingBuffer.WlBuffer.GetIov | wayland/connection.c:113-135 | lists the stored cells in queue order; all cells when the ring is empty |
| RingBuffer.IovPartition | wayland/connection.c:89-135 | the two views together name each of the 4096 cells exactly once |
| RingBuffer.ArcsPartition | wayland/connection.c:89-135 | a cell is stored or free and never both, for every tail and size |
| RingBuffer.GatherArc | wayland/connection.c:113-135 | what the kernel reads through the view is the queued bytes, in order |
| RingBuffer.WlBuffer.Copy | wayland/connection.c:137-150 | returns the oldest bytes and leaves them in the ring |
| RingBuffer.WlBuffer.Consume | wayland/connection.c:206-210 | advancing the tail drops exactly the oldest bytes |
| Connection.CloseFds | wayland/connection.c:172-189 | closes the first `max` queued descriptors in order and empties the ring |
| Connection.BuildCmsg | wayland/connection.c:212-232 | a send carries the first 28 queued descriptors, in order |
| Connection.DecodeCmsg | wayland/connection.c:234-265 | keeps whole control messages while they fit and closes all descriptors from the first that does not fit on |
| Connection.KeepLeaksNothing | wayland/connection.c:234-265 | every received descriptor is kept, in order, or closed, and none is both |
| Connection.KeepWhole | wayland/connection.c:234-265 | what is kept is the control messages before the first that does not fit, whole |
| Connection.WlConnection.SendSome | wayland/connection.c:279-303 | one turn of the flush loop: it makes one `sendmsg` call, and fails exactly if that call is refused, changing nothing; a send of n bytes moves exactly those and the first descriptors out |
| Connection.WlConnection.Flush | wayland/connection.c:267-309 | ends for every socket; nothing is accepted or reordered; when a flush is wanted it fails exactly if the socket refuses a call, and otherwise everything pending has been sent, in order, and its size is returned |
| Connection.WlConnection.Write | wayland/connection.c:350-381 | write and queue: fail only for a message over 4096 bytes or when the flush of what is in the way is refused; else append after it; written bytes are due for flushing, queued ones only if bytes before them were |
| Connection.WlConnection.PutFd | wayland/connection.c:396-406 | queues the descriptor behind the others, flushing first exactly when 28 wait; fails exactly if that flush is refused |
| Connection.WlConnection.Read | wayland/connection.c:311-348 | appends the bytes and keeps the descriptors; on failure, end of file and overflow no byte appears |
| Connection.CopyFds | wayland/connection.c:412-438 | moves all received descriptors behind those queued in the other connection, or, if a flush is refused, none |
| Connection.FlatCopyExact | wayland/connection.c:416-435 | the flat copy reads the queued descriptors exactly when the unmasked tail plus the size stays inside the ring |
| Ledgers.Ledger.SendKeepsBalance | wayland/connection.c:279-303 | after any partial send, bytes sent followed by bytes waiting are still all bytes accepted, in order |
| Ledgers.Ledger.WriteKeepsBalance | wayland/connection.c:350-367 | accepting bytes keeps that account |
| Ledgers.Ledger.PostKeepsBalance | wayland/connection.c:396-406 | accepting a descriptor keeps it too, and no descriptor sent so far was late |
| Ledgers.Ledger.SendLoses | wayland/connection.c:172-189 | after a send, the descriptors sent followed by those waiting are all that were handed over, exactly if at most 28 waited |
| WlMaps.WlMap.InsertNew | wayland/wayland-util.c:175-205 | takes the newest freed slot, else appends one, never one that is live; then that slot holds pointer and flag bit, and all other live slots what they held |
| WlMaps.WlMap.Remove | wayland/wayland-util.c:274-296 | ignores ids of the other side; a live id, and no other, is not live any more and its slot is the newest free one; on an id that is not live the chain is broken |
| WlMaps.WlMap.ReserveNew | wayland/wayland-util.c:235-272 | a peer may name its next slot or an allocated one holding NULL, and nothing else; a next slot is allocated with NULL |
| WlMaps.WlMap.Lookup | wayland/wayland-util.c:298-342 | on our side, pointer and flags of a live id, NULL and 0 of any other; on the peer's side, what its word holds unless tagged free, NULL and 0 behind the end |
| WlMaps.TagRoundTrip | wayland/wayland-util.c:152-160 | 4-aligned pointers and the flag bit come back from the tagged word, which never reads as free |
| WlMaps.RemoveExact | wayland/wayland-util.c:274-296 | the free list stays a chain exactly when the removed slot was live |
| WlMaps.StepSound | wayland/wayland-util.c:175-205 | one operation: live and free slots partition the allocated ones, and a new id is never a live one |
| WlMaps.RunPeak | wayland/wayland-util.c:175-296 | over any run from any table, the same and the array is as long as the larger of before and the peak of live ids |
| WlMaps.TableSizeIsPeak | wayland/wayland-util.c:175-296 | from an empty map, over any run, there are exactly as many slots as were ever live at once |
| WlMaps.RunOps | wayland/wayland-util.c:175-296 | a map over any run of insertions and removals of live ids, on either side, ends with the table of the abstract run and exactly as many slots as were ever live at once |
| WlMaps.InsertFindRemove | wayland/wayland-util.c:175-342 | an inserted pointer is found with its flag bit under the id handed out, other live ids keep theirs, after the removal nothing is found, and the next insertion gets the same id |
| WlMaps.InsertReused | wayland/wayland-util.c:190-204 | unlinking the head word of the chain is the abstract reuse of the newest freed slot |
| WlMaps.RemoveWords | wayland/wayland-util.c:293-295 | linking the freed word in front of the chain is the abstract removal |
| WlLists.WlList.Insert | wayland/wayland-util.c:42-49 | sequence insertion behind any node; next and prev stay inverse and acyclic but for the ring |
| WlLists.WlList.Remove | wayland/wayland-util.c:51-58 | sequence deletion of any node, whose own pointers become NULL |
| WlLists.WlList.Length | wayland/wayland-util.c:60-74 | ends and counts the elements |
| WlLists.WlList.Empty | wayland/wayland-util.c:76-80 | true exactly for the head alone |
| WlLists.WlList.InsertList | wayland/wayland-util.c:82-92 | splices the elements of another list, without its head, behind any node |
| WlLists.RingUnique | wayland/wayland-util.c:35-92 | the pointers determine the sequence they stand for |
| WlLists.RingTurns | wayland/wayland-util.c:35-92 | any node may be taken as the head |
| WlLists.InsertRemove | wayland/wayland-util.c:42-58 | a removal undoes the insertion before it |
| IdsMaps.WlArray.Doubled | wayland/wayland-util.c:112-118 | the doubling loop ends, at 16 times a power of two, below twice the need unless it did not have to grow |
| IdsMaps.WlArray.Add | wayland/wayland-util.c:106-136 | for every size: keeps the whole old block, makes room behind what is stored, stays below twice the need, and all reallocations together move fewer bytes than there is room |
| IdsMaps.WlArray.Copy | wayland/wayland-util.c:138-150 | the elements become those of the source |
| IdsMaps.IdsMap.Insert | src/wldbg-ids-map.c:49-76 | writes one index, clears the gap before it, and counts to the highest index inserted |
| IdsMaps.IdsMap.Get | src/wldbg-ids-map.c:78-85 | the element, NULL behind the end |
| IdsMaps.IdTable.Put | src/resolve-pass.c:48-57 | over both arrays: a write to one of all 2^32 ids changes that id only |
| IdsMaps.IdTable.Get | src/resolve.c:54-62 | reads the total map the two arrays stand for |
| Signatures.GetNextArgument | wayland/connection.c:440-462 | splits off the first declared argument with its nullability; the rest declares the others |
| Signatures.ArgCount | wayland/connection.c:464-482 | the number of declared arguments |
| Signatures.SpecsSnoc | wayland/connection.c:440-482 | what a signature declares, told from its end: one argument for each type letter, nullable exactly if a `?` stands between it and the letter before it |
| Wire.ParseExact | wayland/connection.c:654-816 | the parser accepts given arguments exactly when a prefix of the body is their image, they fit the signature, their descriptors head the queue and their new ids can be reserved in order |
| Wire.ParseLaid | wayland/connection.c:654-816 | the same, with the arguments found byte by byte: each starts on a multiple of four, counted bytes follow their length word and fewer than four bytes of padding follow them |
| Wire.ParsedImages | wayland/connection.c:679-802 | accepted arguments lie one after the other inside the message |
| Wire.ImagesUnique | wayland/connection.c:960-1036 | two encodings of the same arguments have one size and differ in padding bytes only |
| Wire.ImagesLaid | wayland/connection.c:960-1036 | the images of arguments are exactly their bytes in such places: words lowest byte first, strings with their NUL, nothing for a descriptor |
| Wire.SpacedIs | wayland/connection.c:910-958 | those places are determined by the arguments, and the end of the last is the summed size |
| Wire.PaddingLies | wayland/connection.c:960-1036 | padding is what lies between the counted bytes of an argument and the next argument |
| Wire.AbsorbIs | wayland/connection.c:679-802 | an accepted message takes its descriptors off the front of the queue, in order, and reserves its new ids one by one |
| Wire.HeaderFields | wayland/connection.c:1038-1043 | sender and the low 16 bits of the opcode always come back from the header; the size exactly when it is below 65536 |
| Wire.MessageWritten | wayland/connection.c:1038-1043 | a message, byte by byte: sender, opcode and size in 16 bits each, and the arguments in their places |
| Closures.Marshal | wayland/connection.c:540-625 | accepts exactly up to 20 arguments without a NULL string, object or array that its signature does not allow, and keeps each: ids of new objects, duplicates of descriptors |
| Closures.BufferSize | wayland/connection.c:910-958 | the computed size is the size of the wire image: a header and, on multiples of four, a word per argument with the counted bytes behind it, less than four bytes of padding after each |
| Closures.Serialize | wayland/connection.c:960-1048 | succeeds exactly when the buffer has room for that size, returns it, leaves the message there byte by byte, and writes nothing behind the buffer |
| Closures.WriteArg | wayland/connection.c:978-1036 | one argument: its image if it fits, otherwise overflow, never a byte at or past the end |
| Closures.WriteArgs | wayland/connection.c:972-1036 | the loop over the arguments: their images one after the other behind the header, overflow exactly when they do not fit, nothing written at or past the end |
| Closures.ReadArg | wayland/connection.c:679-802 | one argument of the demarshaller is one step of the parser |
| Closures.Demarshal | wayland/connection.c:639-817 | on every byte content and signature its result, the descriptors left and the ids reserved are the parser's, and the input advances by exactly `size` on every path; accepted arguments are what the bytes say at their places, each of its declared kind |
| Closures.CopyFdsToConnection | wayland/connection.c:882-907 | queues the descriptors of the closure in order; it fails exactly if a flush is refused, and then nothing of the byte stream changed |
| Sending.SendClosure | wayland/connection.c:1050-1076 | on success the message and its descriptors, and nothing else, were accepted, and are due for flushing; it fails exactly if the message exceeds the ring or a flush is refused; with nothing waiting before, the outcome is fully determined; afterwards no descriptor is stranded exactly if the call was safe, which the caller can tell beforehand, or bytes still wait |
| Sending.RunActs | wayland/connection.c:172-232 | over any run of sends and flushes on any socket, whichever fail, in which only messages without descriptors exceed the ring, and over every run that succeeds: at most 28 descriptors wait, sent ones followed by waiting ones are all that were put, in order, and none leaves after a byte accepted behind it; a run succeeds exactly if every message fits the ring and the socket refuses nothing, and if its last step is a flush, all bytes and descriptors have then left |
| Sending.LossRun | wayland/connection.c:172-189 | two oversized messages with more than 28 descriptors, then one that fits: once a byte is taken, the first 28 descriptors have left and the others neither left nor wait |
| Sending.LossHappens | wayland/connection.c:1050-1076 | such messages exist: on a new connection, two of thirty descriptors are gone |
| Ledgers.Ledger.OversizedReady | wayland/connection.c:1050-1076 | why: descriptors of an oversized message are left behind exactly when the bytes before them have gone without them |
| RoundTrip.ClosureRoundTrip | wayland/connection.c:639-1048 | any serialization of a closure, whatever its padding, parses back to the same sender, opcode and arguments |
| RoundTrip.MarshalledDeliverable | wayland/connection.c:540-625 | an argument that marshalling accepted meets the conditions of the round trip |
| RoundTrip.Exchange | wayland/connection.c:639-1048 | size, serialize, receive into rings standing anywhere, demarshal: the closure comes out again and both rings are empty |
| RoundTrip.Deliver | wayland/connection.c:540-1048 | from the arguments passed to marshalling to those the receiver gets, through rings standing anywhere: numbers, ids, strings up to their NUL, array bytes and duplicated descriptors; it fails exactly for more than 20 arguments or a NULL that is not allowed |
| RoundTrip.CanonicalReencoding | wayland/connection.c:639-1048 | any image of the arguments of an accepted body has the size of the body and differs in padding only |
| RoundTrip.Reencode | wayland/connection.c:639-1048 | demarshalling a message that states its own size and serializing the result gives the original bytes, header included, except for padding, when the arguments account for all of it and no string holds a NUL |
| Channels.SendRun | wayland/connection.c:1050-1076 | over any run of sends and flushes, up to the first send that fails, exactly the serialized messages were accepted, each descriptor marked with the bytes before its message; a send fails only if a message exceeds the ring or the socket refuses, and if it refuses nothing and the last step is a flush, all messages and descriptors have left in order |
| Channels.TimelySend | wayland/connection.c:267-309 | a descriptor that left did so in a send that started no later than its mark |
| Channels.PromptlyCarried | wayland/connection.c:267-309 | however a stream socket cuts what was sent, once a message is there whole so are its descriptors |
| Channels.MessageTaken | wayland/connection.c:639-817 | the bytes that wait begin with the next message, and the descriptors that wait with its own |
| Channels.TakeWhole | wayland/connection.c:639-817 | after a read, demarshalling by header size takes every message that is there whole, in order, and leaves the rest |
| Channels.ReceiveAll | wayland/connection.c:311-348 | over any pieces the messages come out in order with their descriptors, each as soon as it is whole, until waiting descriptors leave no room for the next |
| Channels.Convey | wayland/connection.c:311-1076 | a sender that handed messages over and a receiver of what the kernel carries: the same closures in order with their descriptors, and all of them once everything was carried and read |
| Pipeline.PipedSize | src/wldbg.c:269-290 | a chain of size-keeping passes keeps the size, also when one stops the chain; a chain that only looks gives the message back |
| Pipeline.PipedLeaves | src/wldbg.c:269-290 | for every chain of passes: each runs the function for the origin of the message on what the one before left, up to the first that says stop |
| Pipeline.ObservingIsTransparent | src/wldbg.c:269-331 | with passes that only look, each peer is due exactly the bytes of the other |
| Pipeline.PlayTranscript | src/wldbg.c:269-331 | what each peer is due is the messages of the other as such runs left them, one by one, each starting in the world the one before left |
| Pipeline.FramesKeepBytes | src/wldbg.c:292-331 | cutting a read into messages drops and reorders no byte |
| Pipeline.FramesAreMessages | src/wldbg.c:301 | each piece is one message, as long as the upper half of its second word says |
| Proxy.Wldbg.RunPasses | src/wldbg.c:269-290 | rewrites the message in place: the passes in order, with their client function for a message from the client and their server function for one from the server, each on what the one before left, up to the first that says stop; nothing behind the message changes |
| Proxy.Forward | src/wldbg.c:312-321 | write and flush with nothing pending: the message leaves whole, unless the socket refuses |
| Proxy.Wldbg.ProcessOneByOne | src/wldbg.c:292-331 | every message of the read, in order, goes through the passes and out before the next; the scratch buffer suffices; stopping a pass chain drops no message; it fails exactly when a pass asked to quit or the socket refused |
| Proxy.Wldbg.Dispatch | src/wldbg.c:402-425 | one readable socket: its messages join the log and what the passes make of them is accepted for the other side; the other direction does not notice; it fails exactly when the read failed or ended, a pass asked to quit, or the socket written to refused |
| Proxy.ReadChunk | src/wldbg.c:351-418 | takes a whole read out of the input and passes its descriptors on |
| ProxyRuns.ChunksKeepBytes | src/wldbg.c:333-400 | in both modes the logged messages are exactly the bytes read |
| ProxyRuns.SentIsDue | src/wldbg.c:269-425 | between dispatches each socket has been sent exactly the transformed messages of the other side, with their descriptors, none late; both output rings are empty |
| ProxyRuns.SentTranscript | src/wldbg.c:269-425 | what each socket was sent, against a transcript of the passes on each message; a prefix while bytes wait |
| ProxyRuns.EveryByteArrives | src/wldbg.c:269-425 | with passes that only look, after a whole script each side got byte for byte what the other sent, in either mode |
| ProxyRuns.NothingElseArrives | src/wldbg.c:269-425 | with passes that only look, whatever failed, what a peer was sent is a prefix of what the other sent |
| ProxyRuns.Run | src/wldbg.c:587-614 | over any script of reads and any behaviour of the sockets, what was forwarded is a prefix of what was due; the script is handled to its end, with all of it forwarded, exactly if every read brings something or is to be tried again, no pass quits and no socket refuses |
| ProxyRuns.Proxied | src/wldbg.c:269-425 | the whole proxy from new connections: it handles the script to its end exactly if all of it can be read, no pass quits and no socket refuses, and then each socket was sent the other side's messages as the passes left them, by a transcript of the passes, with all descriptors; otherwise a prefix of that; with passes that only look, byte for byte what the other side sent |
| ParseMessage.ParseHeader | src/parse-message.c:37-51 | the header fields, and whether the size is plausible |
| ParseMessage.SerializedHeaderParses | src/parse-message.c:37-51 | every serialized message below 65536 bytes passes, with its own sender, opcode and size |
| ParseMessage.SameSpecs | src/parse-message.c:108-121 | on signatures of digits, `?` and type letters the iterator sees the arguments the marshaller sees |
| ParseMessage.ArgIterator.NextArgument | src/parse-message.c:173-238 | hands out the declared arguments in order, each with type, nullability and data pointer, then NULL forever |
| ParseMessage.ArgIterator.Reset | src/parse-message.c:164-171 | starts over, so the same sequence follows |
| ParseMessage.FindAll | src/parse-message.c:164-238 | over a whole message laid out on the wire: all declared arguments in order with type and nullability, and up to the first descriptor each data pointer at the argument's own bytes |
| ParseMessage.IteratorAgrees | src/parse-message.c:108-238 | up to the first descriptor, the data pointer of each argument is the word where the serializer put it |
| ParseMessage.StepAgrees | src/parse-message.c:123-147 | from the right word one step leads to the next argument's, or one word past it after a descriptor; the pointer is past the length word for strings and arrays, NULL when they are empty |
| ParseMessage.HandlesPush | src/parse-message.c:214-216 | each descriptor of a run puts the iterator one word too far |
| ParseMessage.IteratorExact | src/parse-message.c:173-238 | the iterator finds every argument exactly for the signatures whose descriptors come last |
| Resolve.NewIdPos | src/resolve-pass.c:244-257 | position of the first new id, or -1 |
| Resolve.GetNewId | src/resolve-pass.c:259-283 | the word the scan over the signature ends at |
| Resolve.NewIdFound | src/resolve-pass.c:259-283 | on a well-formed message that word is the new id |
| Resolve.ScanLands | src/resolve-pass.c:259-283 | over letters that take words, the scan ends where the serializer put the first new id |
| Resolve.ScanAhead | src/resolve-pass.c:259-283 | on a message of zero words the scan is past the first new id as soon as a character before it takes no word |
| Resolve.ScanExact | src/resolve-pass.c:259-283 | the scan ends at the word of the first new id in every message of a signature exactly when only types that take words come before it |
| Resolve.NewIdsLoopEnds | src/resolve-pass.c:285-321 | the loop ends exactly for signatures with at most one new id |
| Resolve.BindGuess | src/resolve-pass.c:404-411 | the name guessed in a bind request is its string argument |
| Resolve.EffectIs | src/resolve-pass.c:323-415 | which entry a message makes, told from its words: delete_id frees the id it names; a message on an object of a known interface with its opcode in range enters its first new id under the declared interface, or in a bind request to wl_registry the first whose name its bytes spell, or as unknown; no other message enters anything |
| Resolve.Resolver.constructor | src/resolve-pass.c:417-440 | a new table, which holds the display under id 1 and nothing else |
| Resolve.Resolver.GetInterface | src/resolve-pass.c:92-111 | the first interface of that name, NULL when there is none |
| Resolve.NewBinding | src/resolve-pass.c:302-315 | the declared interface, else the first bearing the guessed name, else unknown |
| Resolve.Resolver.GetNewIds | src/resolve-pass.c:285-321 | enters the id the scan finds under the declared interface, else the first that bears the guessed name, else the unknown one, and changes nothing else |
| Resolve.Resolver.Pass | src/resolve-pass.c:323-415 | one message changes the table exactly as it says (`Resolve.EffectIs`); messages on unseen, unknown or freed objects and bad opcodes change nothing |
| Resolve.PassAll | src/resolve-pass.c:323-415 | after any run of well-formed messages the table is their replay |
| Resolve.LookupIsLastWord | src/resolve.c:54-72 | a lookup gives what the last message that created or deleted the id said, else what stood there before |
| Resolve.TablesSay | src/resolve.c:54-72 | after every message of every run, a lookup gives a value exactly if the last message that set the id set it to that, or none did and a new table holds it |
| Resolve.ResolveAll | src/resolve-pass.c:323-440 | from a new table, over any run of well-formed messages, a lookup at any time gives a value exactly if the last message that entered or deleted the id said so, or none did and it is the display for id 1 or NULL for another |
| Resolve.Start | src/resolve-pass.c:435-437 | a lookup in a new table gives the display for id 1 and NULL for every other id |
| Resolve.Resolver.ResolveMessage | src/parse-message.c:66-106 | finds a declaration for exactly the messages with a sound header that the pass would look into |
| ObjInfos.SurfaceInfo.Handle | src/objinfo/wl_surface-objinfo.c:93-127 | each request changes its fields and no others; keeps: pending is the fold of the requests since the last commit, the committed copy that of the requests before it; a commit leaves zero; the chain ends after one copy |
| ObjInfos.CutAtCommits | src/objinfo/wl_surface-objinfo.c:93-129 | the two folds are over the requests between the last two commits and after the last |
| ObjInfos.FoldKeepsLast | src/objinfo/wl_surface-objinfo.c:36-45 | a fold keeps the buffer and place of the last attach and the callback of the last frame request |
| ObjInfos.FoldOfNone | src/objinfo/wl_surface-objinfo.c:123-127 | and is zero where there was no such request, as after a commit |
| ObjInfos.BufferInfo.Mark | src/objinfo/wl_shm-objinfo.c:106-125 | keeps: the flag is set exactly when the last attach or release was a release |
| ObjInfos.SeatInfo.Handle | src/objinfo/wl_seat-objinfo.c:78-104 | keeps: capabilities and name are the last announced, capabilities 0 before that |
| ObjInfos.SaidLast | src/objinfo/wl_seat-objinfo.c:78-104 | the capabilities and the name are those of the last such event |
| ObjInfos.XdgInfo.Configured | src/objinfo/xdg-objinfo.c:113-135 | the slots are those of the longer history |
| ObjInfos.XdgInfo.AckConfigure | src/objinfo/xdg-objinfo.c:144-156 | marks the first slot with the serial and no other |
| ObjInfos.SlotsHoldLastTen | src/objinfo/xdg-objinfo.c:112-156 | with distinct non-zero serials the slots hold the last ten configures, number k at k mod 10, each marked exactly if acknowledged since |
| Registry.ObjectsInfo.PutNew | src/objinfo/objinfo-private.c:38-47 | the slot of the stored id holds the info and tells its life, no other slot changes, no info is in two slots; the account stays complete exactly if the slot was empty |
| Registry.ObjectsInfo.Free | src/objinfo/objinfo-private.c:59-67 | freeing by the stored id clears the slot the info was found in; no slot keeps it, and the account stays |
| Registry.ObjectsInfo.MarkBuffer | src/objinfo/wl_shm-objinfo.c:106-125 | the named buffer's life goes on by the event, no other info notices |
| Registry.ObjectsInfo.SurfaceRequest | src/objinfo/wl_surface-objinfo.c:80-127 | the surface's life goes on by the request, that of an attached buffer by the attach unless the surface is unknown, no other info notices |
| Registry.ObjectsInfo.XdgRequest | src/objinfo/xdg-objinfo.c:100-156 | the xdg surface's life goes on by the event, no other info notices |
| Registry.ObjectsInfo.SeatSays | src/objinfo/wl_seat-objinfo.c:78-104 | the seat's life goes on by the event, no other info notices |
| Registry.ObjectsInfo.CreateBuffer | src/objinfo/wl_shm-objinfo.c:57-103 | a new, unreleased buffer with the request's fields, under its id; nothing else changes |
| Registry.ObjectsInfo.CreateSurface | src/objinfo/wl_surface-objinfo.c:134-158 | a new surface with no history, under its id; nothing else changes |
| Registry.ObjectsInfo.CreateXdg | src/objinfo/xdg-objinfo.c:65-98 | a new xdg surface with no history, under its id; nothing else changes |
| Registry.ObjectsInfo.CreateSeat | src/objinfo/wl_registry-objinfo.c:40-59 | a new seat with no history, under its id; nothing else changes |
| Registry.ObjectsInfo.DestroyObject | src/objinfo/xdg-objinfo.c:157-158 | a destroy request frees the object's info once and empties its slot; unknown objects are ignored |
| Registry.ObjectsInfo.DestroyAll | src/objinfo/objinfo.c:51-84 | frees every info still in a slot, each exactly once, and none that was freed before; it leaves none that was ever put unfreed exactly if the account was complete |
| Registry.ObjectsInfo.SweepNext | src/objinfo/objinfo.c:60-77 | one turn of that sweep: what has been freed is exactly what the slots passed so far hold |
| RegistryRuns.Handle | src/objinfo-pass.c:76-107 | one message: every life goes on as it should, a creation puts one info with its id and nothing else does, a destruction frees the one in its slot, and the account stays complete unless an object is created under an occupied id |
| RegistryRuns.RunAll | src/objinfo/objinfo.c:36-49 | over any well-typed run from an empty registry each slot tells the life of its object; the infos put are those of the objects created, in order; every one is in exactly one of slots and freed ones exactly if no object was created under the id of one alive, and as many are in neither as that happened |
| RegistryRuns.Session | src/objinfo/objinfo.c:51-84 | at the end of any such run no info is freed twice, and of those created as many stay unfreed as objects were created under the id of one alive, so none exactly if there was none |
| RegistryRuns.LifeSinceCreation | src/objinfo/wl_surface-objinfo.c:80-132 | an object's life is the fields of its creation and its own events since: requests to a surface, events of an xdg surface and of a seat, releases and attaches by known surfaces of a buffer |
| RegistryRuns.SlotShows | src/objinfo/objinfo.c:36-49 | after any run the info of a live object has the fields it was created with, and shows its own events since: a buffer its last mark, a surface its pending and committed state, an xdg surface its slots, a seat its capabilities |
| RegistryRuns.LastMark | src/objinfo/wl_shm-objinfo.c:106-125 | a buffer's last mark is a release exactly if some event released it and no known surface attached it since |
| RegistryRuns.NoLife | src/objinfo/objinfo-private.c:59-67 | there is none before the first creation and after a destruction |
| RegistryRuns.KindsOfLives | src/objinfo/objinfo-private.c:49-57 | what kind of object lives under an id is told by creations and destructions alone |
| RegistryRuns.CollisionsNone | src/objinfo/objinfo-private.c:38-47 | no object is created under the id of one alive exactly if that is counted zero times |

## Left out

- Sockets, epoll, signals, processes, lock files, options, interactive commands, printing and loading of passes: system calls and user interface; the event loop is a script of readable sockets.
- `EINTR`: `sendmsg` and `recvmsg` are retried until they do something else; `Socket.SendMsg` and `Recv` are that.
- Running out of memory, a failing `dup`, and size overflow in `wl_array_add`: all end the operation in the source.
- Reads that end inside a message and passes that change the size: the source does not reassemble messages, so `Framed` and `SizeKeeping` are preconditions.
- Connection.CopyFds: requires that the unmasked tail plus the size stays below 4096, outside of which the source reads past its buffer (`Connection.FlatCopyExact`); so the proxy runs carry at most 1024 descriptors a side.
- Resolve.Resolver.GetNewIds: requires at most one new id in the signature, beyond which the source does not return (`Resolve.NewIdsLoopEnds`).
- Resolve.Resolver.Pass: requires messages whose signature the scan reads correctly (`Resolve.ScanExact`); on others the source enters some other word of the message as an id.
- ParseMessage.IteratorAgrees: claims nothing behind a descriptor, where `ParseMessage.IteratorExact` says the position is wrong.
- WlMaps.WlMap.InsertNew: requires fewer slots than ids of our side and than a 32-bit link word can name.
- WlMaps.WlMap.Remove: requires an allocated slot, beyond which the source writes outside its array.
- RoundTrip.ClosureRoundTrip: strings arrive up to their first NUL, a NULL array arrives empty, and objects are compared by id, as on the wire; existing objects have non-zero ids.
- Registry.ObjectsInfo.MarkBuffer: requires that the slot holds a buffer's info if any; the source casts without looking. The same holds for surfaces in `SurfaceRequest`, xdg surfaces in `XdgRequest` and seats in `SeatSays`. `RegistryRuns.WellTyped` says which runs are free of such casts.
- ObjInfos.SlotsHoldLastTen: requires distinct non-zero serials; an acknowledgement of a repeated serial, or of 0 before ten configures came, marks the first slot that carries it, which `ObjInfos.XdgInfo.AckConfigure` covers.
- RoundTrip.Exchange: strings arrive up to their first NUL and a NULL array arrives empty; objects are their ids.
- Channels.Convey: requires messages the receiver can accept, as `RoundTrip.Exchange` does, and a stream socket that keeps bytes and descriptors in order and brings the descriptors of a send with its first byte.
- RoundTrip.Deliver: requires a message that fits the ring and new ids the receiver can reserve, like `RoundTrip.Exchange`.
- Sending.RunActs: promises nothing for runs in which an oversized message carries descriptors, beyond what `Sending.SendClosure` says of each send, and requires that such runs put at most 1024 descriptors, which the ring does not check.
- Closures.Serialize: requires sizes below 2^31, beyond which the `int` result wraps.
- `wl_map_insert_at`, `wl_map_for_each`, `wl_closure_lookup_objects`, `wl_closure_queue`, dispatching and printing of closures: not on the path of the proxy, or the same walk again.
- `wldbg_message_get_interface` and `resolved_objects_iterate`: they index server objects with the base still added and so never reach them.
- The libwayland and xdg-shell interface tables: a parameter of the resolve pass. `WL_DISPLAY_DELETE_ID` and `WL_REGISTRY_BIND` are 1 and 0 as in the Wayland core protocol.
- The version of seats, and the title, flags and wl_surface id of xdg surfaces: plain fields with no invariant. The name of a seat is arbitrary until one is announced, as in the source.
- `configures_num` is unbounded here and 64 bits wide in the source.
