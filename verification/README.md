# A verified model of the DiME message broker

DiME is a single-threaded message broker. Clients connect over plain or
WebSocket streams, join named groups, and send or broadcast variables that
wait in per-client queues until the receiver asks for them with `sync`. This
project models five connected parts of it in Dafny 4.11 and proves what they
keep over all inputs, all runs and all ways a byte stream can be cut up:

- **The hash table** (`Arithmetic`, `Probing`, `TableModel`, `Table`): open addressing with
  triangular probing, tombstones, and a recursive rehash in place. The class
  `Table` has the fields and loops of the C code. Its contents are a bag of
  entries; on top of that it refines a finite map.
- **The queues and buffers** (`Sequences`, `CircularArray`, `Deque`, `RingBuffer`): the
  growing circular deque of message pointers and the growing circular byte
  buffer, each proved against a sequence.
- **The byte stream** (`Bytes`, `Incremental`, `Framing`, `Socket`): the
  length-prefixed DiME messages, and the WebSocket frames of sections 5.2 and
  5.3 of RFC 6455 they may travel in. `Incremental` holds the theory of step
  functions whose answer does not change when more bytes arrive; class `Socket`
  is proved against it, down to the circular arrays.
- **The broker** (`BrokerModel`, `BrokerInvariants`, `BrokerTheorems`,
  `BrokerCommands`, `Server`): the state machine of connects, disconnects and commands, with
  the output streams and the messages addressed to each client as history. The
  methods of class `Server` have the loops of the C code and make exactly the
  steps of `BrokerModel`.
- **The Python side** (`Dimeb`, `DimebFormat`, `PyClient`): the recursive codec for nested
  values, and the batching loop that starts over when the server announces
  another serialization.

How the rehash is proved: a slot is *processed* once `relocate` has finished on
it. A processed slot's element depends only on processed slots that hold an
element or are *holes*, slots whose element an active call has lifted.
Relocating a processed slot under holes H leaves equally many holes inside
H plus that slot, so nothing an element depends on is lost. The probing loop ends
because triangular numbers modulo a power of two visit every slot, and the
recursion ends because every lifted element makes the bag in the array smaller.

Findings. Four properties one might expect of the code do not hold for every
input; the exact conditions are proved:

- `dime_table_insert` refuses a duplicate key exactly when its probes meet the
  key before a slot without an element, or when the call grew the table first
  (`Table.Table.Insert`). For any two keys of equal hash a run of four
  operations stores one of them twice (`Table.StoreTwice`).
- Reference counts equal queue occurrences in all states of a run if and only if no
  client goes away while its deque is exactly full
  (`BrokerInvariants.InvRun`; `BrokerTheorems.LeakReachable` is a run that
  leaks, `BrokerTheorems.LeakedForever` says that the leak stays). The deque iterator sees an exactly full deque as empty.
- A dimeb encoding can be loaded back if and only if the value has no array of
  rank 0 and no dict key that is a tuple, at any depth (`Dimeb.RoundTrip`;
  `Dimeb.TupleKeyLost` is an instance).
- A frame error hides messages that arrived in the same chunk and are already
  complete. Received in chunks or all at once, a WebSocket stream gives the
  same messages if and only if no frame is in error or the first message was
  not complete at any chunk boundary before the error
  (`Framing.WsChunksMatter`; `Framing.FrameErrorHides` is an instance).

`dafny verify dfyconfig.toml` checks the whole project.

## Model

| member | source | states |
|---|---|---|
| Probing.ProbeStep | server/table.c:43-56 | the incremental index of the loops, starting at the home slot, equals the closed form hash + 1 + 2 + ... + k modulo the capacity |
| Probing.TriDistinct | server/table.h:25-34 | triangular numbers below a power of two are pairwise incongruent modulo it |
| Probing.ProbeInjective | server/table.h:25-34 | the first cap probes never repeat a slot |
| Probing.ProbeCovers | server/table.h:25-34 | every slot is met by exactly one of the first cap probes, as the header claims |
| TableModel.RelocateLift | server/table.c:43-51 | lifting an element establishes the invariant of the probing loop; from a processed slot it leaves a hole |
| TableModel.RelocateNext | server/table.c:53-56 | if the next probe is still occupied after its own relocation, the holes are unchanged, fewer than cap probes were made, and the invariant holds for the next probe |
| TableModel.RelocatePlace | server/table.c:58-62 | putting the element down re-establishes the settled state, keeps the bag, keeps everything settled elements depend on, and keeps the collision counter at least the number of strays |
| TableModel.PassDone | server/table.c:82-88 | after a pass over all slots there is no tombstone, every earlier probe slot of an element is occupied, and the counters are sound |
| Table.Table.Relocate | server/table.c:34-63 | the recursive relocation ends, keeps exactly the entries of the table, settles slot i0, changes only processed slots, and conserves the number of holes |
| Table.Table.Grow | server/table.c:65-91 | doubling in place ends with the same entries, no tombstone, every element reachable through occupied slots, and exact nfree |
| Table.Table.Rehash | server/table.c:161-170 | the same-capacity loop removes all tombstones and keeps every entry reachable |
| Table.Table.Insert | server/table.c:118-174 | adds exactly one entry or refuses, and refuses if and only if the probes meet the key first (or it is present at all, after growth); afterwards the probes meet the key |
| Table.Table.Put | server/table.c:144-173 | storing the element at the end of its run of occupied slots keeps the invariant and adds exactly that entry; no tombstone appears where there was none |
| Table.Table.Settle | server/table.c:152-171 | counting a collision, which may grow the table, and a taken FREE slot, which may rehash it, restore the invariant: nfree never exceeds the FREE slots, at least cap/2 - 1 slots are FREE, ncollisions covers the strays; no entry changes |
| Table.Table.Search | server/table.c:176-212 | finds a value of the key if and only if one is stored, within cap probes; moving the element into the first tombstone changes no entry, never underflows ncollisions, and leaves the key where the probes of insert meet it |
| Table.Table.SearchR | server/table.c:214-234 | the same answer without touching the table |
| Table.Table.Remove | server/table.c:236-259 | removes exactly one entry of the key, by one tombstone in its slot, and returns its value, or changes nothing if there is none |
| TableModel.ValidMigrate | server/table.c:189-201 | the move keeps the bag and the whole invariant, and the decrement of ncollisions is safe |
| TableModel.SearchMeets | server/table.c:185-201 | after the move every earlier probe slot of the key holds an element |
| TableModel.TombstoneHides | server/table.c:135-142 | once an element is removed from its home slot, insert meets no key of the same hash |
| Table.StoreTwice | server/table.c:118-174 | for any two keys of equal hash a run of four operations on a fresh table ends with one of them stored twice |
| Table.SearchThenInsert | server/client.c:339-391 | after a search for the key, insert refuses it if and only if it is stored |
| TableModel.TightMeets | server/table.c:123-142 | without tombstones insert meets a key if and only if it is stored |
| TableModel.EntriesAll | server/table.c:265-283 | slot order lists every entry exactly as often as the table holds it |
| TableModel.IterationEnumerates | server/table.c:270-283 | iterating over a table that represents a map yields every key once, with its value |
| Table.TableIter.Next | server/table.c:270-283 | advances to the next entry in slot order, or reports the end exactly when none is left |
| Table.Iterate | server/table.c:265-283 | a complete iteration yields the bag of entries |
| Table.Replay | server/table.c:118-259 | over any sequence of insert (of absent keys), search, search_r and remove the table answers as a finite map does and ends representing that map |
| Table.ReplayFresh | server/table.c:93-116 | a fresh table answers any such sequence as the empty map does |
| Table.RepresentsAnswer | server/table.c:176-234 | whatever search or search_r may answer is the map's value for the key, so the two always agree |
| TableModel.RepresentsRemove | server/table.c:236-259 | removing one entry of a key takes the key out of the map |
| Deque.Deque.MakeRoom | server/deque.c:56-74 | growing a full deque, from any rotation, keeps the sequence |
| Deque.Deque.PushL | server/deque.c:24-54 | prepends, growing a full array |
| Deque.Deque.PushR | server/deque.c:56-86 | appends, growing a full array |
| Deque.Deque.PopL | server/deque.c:88-103 | takes the first element, or nothing if and only if the deque is empty |
| Deque.Iterate | server/deque.c:126-145 | the iterator yields the sequence in order if len < cap, and nothing if the array is exactly full |
| Deque.PopThenPush | server/client.c:869-878 | popl followed by pushl of the same element restores the queue |
| RingBuffer.RingBuffer.Write | server/ringbuffer.c:27-69 | appends the bytes, through wraparound and growth, keeping len < cap and end == (begin + len) mod cap |
| RingBuffer.RingBuffer.Peek | server/ringbuffer.c:71-90 | returns the prefix of min(siz, len) bytes |
| RingBuffer.RingBuffer.Discard | server/ringbuffer.c:92-105 | drops that prefix |
| RingBuffer.RingBuffer.Read | server/ringbuffer.c:23-25 | returns and drops the prefix; what it returns and what stays is what was there |
| CircularArray.CircularMove | server/deque.c:32-38 | moving the part from begin to the end of a larger array keeps the sequence |
| CircularArray.CircularWrite | server/ringbuffer.c:53-67 | a block written in one or two pieces at end extends the sequence by that block |
| Incremental.DrainAppend | server/server.c:801-869 | taking items from a first part and then from the rest with more bytes is taking them from everything at once |
| Incremental.ChunkIndependence | server/server.c:801-869 | draining after every chunk yields the items, the rest and the error state of the whole stream |
| Incremental.DrainPrefix | server/server.c:801-869 | after any n bytes of a concatenation of encodings exactly the complete items were taken and the rest is exactly the unfinished tail |
| Framing.DimeIncremental | server/socket.c:502-559 | the answer of the decoder to a buffer does not change when more bytes follow, and messages are not empty |
| Framing.EncodeDecodes | server/socket.c:359-423 | an encoded message of less than 2^32 bytes decodes to itself, whatever follows |
| Framing.MessageLayout | server/socket.c:359-423 | a message is the bytes 44 69 4D 45, the lengths of its two parts in 32 bits each, and the parts |
| Framing.BadMagic | server/socket.c:504-508 | anything else in the first four bytes is an error |
| Framing.DimeRoundTrip | server/socket.c:502-559 | any messages in any chunks are popped exactly, in order, leaving nothing |
| Framing.DimeTail | server/socket.c:502-559 | after a part of the stream the inbuffer holds exactly the unfinished message |
| Framing.MaskedTwice | server/socket.c:481-483 | the masking of section 5.3 of RFC 6455 is its own inverse |
| Framing.MaskedAt | server/socket.c:481-483 | bit by bit, byte i is combined with byte i mod 4 of the mask, as section 5.3 of RFC 6455 says |
| Framing.FrameIncremental | server/socket.c:427-499 | the same stability for the de-framing loop |
| Framing.FrameDecodes | server/socket.c:427-499 | a masked frame in any of the three length forms yields its payload and its size, whatever follows |
| Framing.FrameHeaderAgrees | server/socket.c:433-472 | the header of a client's frame, read by section 5.2 of RFC 6455, is masked and gives its payload length and size |
| Framing.FrameOneAgrees | server/socket.c:427-499 | for any bytes: a masked frame by section 5.2 is taken exactly as defined there, one without mask is an error as soon as four bytes follow its header, and nothing else is taken but a frame whose length has the reserved top bit set |
| Framing.WsHeaderReads | server/socket.c:376-406 | the server's header reads back, by section 5.2, as one final unmasked binary frame of the payload length |
| Framing.WsHeaderShortest | server/socket.c:382-406 | no header that expresses the length is shorter |
| Framing.WsChunkIndependence | server/server.c:801-869 | as long as no frame is in error the chunks do not matter for a WebSocket connection either |
| Framing.WsErrorPops | server/socket.c:427-499 | with a frame error in the stream a message is popped if and only if the first one was complete at a chunk boundary before the error |
| Framing.WsChunksMatter | server/server.c:801-869 | for any stream the chunks and the whole agree on failing, and on the messages if and only if no frame is in error or no message was complete at an earlier chunk boundary |
| Framing.FrameErrorHides | server/socket.c:427-499 | a message and a broken frame in one chunk give nothing; in two chunks they give the message |
| Framing.WsRoundTrip | server/socket.c:425-559 | any messages, in any masked frames, in any chunks are popped exactly, leaving nothing |
| Socket.Socket.PushStr | server/socket.c:359-423 | appends exactly the frame header and the encoded message; bytes sent plus outbuffer stay the concatenation of all pushes |
| Socket.StreamPlain | server/socket.c:359-423 | on a plain connection the stream is the concatenation of the encoded messages |
| Socket.PushedFrame | server/socket.c:376-420 | on a WebSocket connection each push is one frame of section 5.2 whose payload is the encoded message |
| Socket.PeerFrames | server/socket.c:376-420 | reading any part of the stream frame by frame, in any chunks, yields exactly the encodings of the messages sent completely, each from one frame |
| Socket.PeerDecodes | server/socket.c:359-423 | on a plain connection any chunks of what was sent decode to the messages pushed, up to the first one not sent completely; to all of them once the outbuffer is empty |
| Socket.PeerDeframes | server/socket.c:359-423 | the same on a WebSocket connection, frame by frame |
| Socket.Socket.SendPartial | server/socket.c:561-592 | moves the accepted bytes from the outbuffer to what was sent, or nothing on an error |
| Socket.Socket.RecvPartial | server/socket.c:594-642 | appends the chunk to the frame buffer or the inbuffer |
| Socket.Unmask | server/socket.c:481-483 | the in-place loop leaves the masked bytes |
| Socket.Socket.NextFrame | server/socket.c:428-476 | header parsing over the peeked bytes finds the same frame, size and mask as the specification |
| Socket.Socket.TakeFrame | server/socket.c:428-498 | one round of the loop moves one unmasked payload into the inbuffer and discards the frame |
| Socket.Socket.Deframe | server/socket.c:427-499 | the loop appends exactly the concatenated unmasked payloads of all complete frames, and fails exactly on a frame error |
| Socket.Socket.PopMessage | server/socket.c:502-559 | takes the message at the front if it is complete, and reports exactly the errors of the decoder |
| Socket.Socket.Pop | server/socket.c:425-559 | de-frames everything complete, then takes one message |
| Socket.Socket.HandleReadable | server/server.c:775-869 | receiving a chunk and popping until nothing comes yields the drained messages |
| Socket.ReceiveMessages | server/server.c:775-869 | over the concrete buffers, the encoding of any messages in any chunks is popped as those messages |
| Socket.ReceiveFrames | server/server.c:775-869 | the same under WebSocket framing, for any cutting into masked frames |
| BrokerInvariants.ReleaseAllFacts | server/client.c:151-161 | releasing distinct messages drops one reference each and frees exactly those whose last reference it was |
| BrokerInvariants.InvDeliver | server/client.c:633-696 | a send or broadcast keeps all invariants and neither loses nor invents references |
| BrokerInvariants.InvFlush | server/client.c:868-888 | so does writing out and releasing the first messages of a queue |
| BrokerInvariants.InvHandshake | server/client.c:169-285 | so does a handshake, with or without a change of serialization |
| BrokerInvariants.InvJoin | server/client.c:308-460 | so does a join, also one that stops at a bad name |
| BrokerInvariants.InvLeave | server/client.c:499-552 | so does a leave |
| BrokerInvariants.InvDisconnect | server/client.c:133-167 | destroying a client keeps all invariants; the counts stay exact unless its queue is exactly full, and then every message of the queue keeps a reference too many |
| BrokerInvariants.InvStep | server/server.c:801-899 | every possible event keeps all invariants, and keeps the counts exact if and only if it is no disconnect with a full queue |
| BrokerInvariants.InvRun | server/server.c:652-921 | over every run: queued messages are never freed, refs is at least the number of queues that hold the message, and the counts are exact if and only if no client was destroyed with an exactly full queue |
| BrokerTheorems.ExactFromStart | server/client.c:147-161 | the same from the empty server |
| BrokerTheorems.LiveIffQueued | server/client.c:881-887 | with exact counts a message is in memory if and only if some queue holds it |
| BrokerTheorems.LeakReachable | server/deque.c:126-145 | 16 broadcasts to a client that then goes away leave 16 messages in memory that are in no queue |
| BrokerTheorems.LeakedForever | server/client.c:147-161 | no later run frees a message that was queued for a client that went away with an exactly full queue |
| BrokerTheorems.StepAddressed | server/client.c:639-640 | an event appends its message to what was addressed to a client exactly if the client is a member of the group, or not the broadcaster |
| BrokerTheorems.FifoDelivery | server/client.c:639-888 | over any run, what was written to a client followed by what is queued for it is exactly what was addressed to it, in order |
| BrokerTheorems.MembershipSymmetric | server/client.c:451-455 | in every reachable state a client is in a group's list if and only if the group is in the client's list, without duplicates |
| BrokerTheorems.WaitsAnsweredOnce | server/client.c:914-951 | over any run the wait commands a client issues while not waiting are the answers it gets plus one if it is left waiting; a waiting client has an empty queue, and every answer is at least 1 |
| BrokerTheorems.SerSettles | server/client.c:203-235 | the server's serialization changes at most twice in any run and never leaves dimeb or json |
| BrokerTheorems.SerializationAgreement | server/client.c:203-268 | what a client with a completed handshake was told last is the server's serialization, and it is told to reregister at most once |
| BrokerCommands.StartsEmpty | server/server.c:69-188 | the server starts without clients, groups and messages, and without a serialization |
| BrokerCommands.ConnectOutcome | server/client.c:32-131 | a new client has no group, nothing queued and nothing written to it; nothing else changes |
| BrokerCommands.DisconnectOutcome | server/client.c:133-167 | the client is gone from the table and from all groups; no other client changes |
| BrokerCommands.RefusedCommands | server/client.c:308-322 | a command with a missing field, or unknown, is answered Error and changes nothing; a handshake with an unknown serialization and a sync without a count are not answered |
| BrokerCommands.SendOutcome | server/client.c:570-722 | if some client has the group, the message goes to the end of the queues of exactly those clients, with as many references, those waiting are told 1, and the sender is told Ok; otherwise it is told Error and nothing else changes |
| BrokerCommands.BroadcastOutcome | server/client.c:724-857 | the same for everybody but the sender, which is always told Ok |
| BrokerCommands.JoinOutcome | server/client.c:308-475 | a join adds exactly the names before the first that is no string, is joined already or repeats one, to both lists in order, changes nothing else, and is answered Ok if and only if there is no such name |
| BrokerCommands.LeaveOutcome | server/client.c:499-567 | a leave takes exactly the names before the first that is no string, is not joined or repeats one out of both lists, changes nothing else, and is answered Ok if and only if there is no such name |
| BrokerCommands.LeaveUndoesJoin | server/client.c:514-531 | a join and then a leave command restore both lists and are both answered Ok |
| BrokerCommands.SyncDelivers | server/client.c:859-912 | a sync of n writes exactly the first min(n, queue length) messages, all for a negative n, then the status; after a failed write it writes no status, and the unwritten messages stay in order; nobody else changes |
| BrokerCommands.WaitAnsweredNow | server/client.c:914-951 | a wait is answered at once, with the queue length, if and only if messages are queued; otherwise the client is waiting; nothing else changes |
| BrokerCommands.WaitAnsweredLater | server/client.c:659-691 | the first send or broadcast that reaches a waiting client answers its wait, with 1, and ends the waiting |
| BrokerCommands.DevicesExact | server/client.c:972-1008 | devices is answered with every group that some client has joined, once, and nothing else; nothing changes |
| BrokerCommands.HandshakeOutcome | server/client.c:203-268 | the first handshake settles the serialization; dimeb and json stay; matlab and pickle give way to dimeb when another one is asked for, and exactly then the others are told to reregister; the client is told what is in force |
| Server.Find | server/client.c:518-519 | a linear search finds the first index |
| Server.Server.Send | server/client.c:570-722 | the loop over the group makes exactly the send step; refs is positive at the end |
| Server.Server.EnqueueMembers | server/client.c:639-694 | the loop reaches every member once and counts one reference each |
| Server.Server.Broadcast | server/client.c:724-857 | the loop over the table, in any order, makes exactly the broadcast step; a message without receiver is freed |
| Server.Server.Sync | server/client.c:859-912 | the pop, write, release loop, with its recovery, makes exactly the sync step |
| Server.FlushMore | server/client.c:868-888 | one more round writes the next message and drops its reference, which is positive |
| Server.Server.Wait | server/client.c:914-951 | makes exactly the wait step |
| Server.Server.ListDevices | server/client.c:953-1044 | the loop over the groups answers the non-empty ones |
| Server.Server.Join | server/client.c:287-476 | the loop over the names makes exactly the join step |
| Server.Server.LeaveGroup | server/client.c:514-535 | removes both list entries; the assert(0) is unreachable |
| Server.Server.Leave | server/client.c:478-568 | the loop over the names makes exactly the leave step |
| Server.Server.Handshake | server/client.c:169-285 | makes exactly the handshake step, telling every other client in any order |
| Server.Server.Disconnect | server/client.c:133-167 | the two loops of destroy make exactly the disconnect step |
| Server.Server.DropAll | server/client.c:151-161 | every message the iterator yields is still in memory when its reference is dropped |
| Server.Server.Dispatch | server/server.c:827-854 | each command makes its step and keeps all invariants |
| Dimeb.RoundTrip | client/python/dime/dimeb.py:186-294 | loading an encoding followed by any bytes gives the normal form and its length if and only if the value is recoverable, and an exception otherwise |
| Dimeb.MatBack | client/python/dime/dimeb.py:97-113 | the same for matrices |
| DimebFormat.LoadsSentinels | client/python/dime/dimeb.py:50-57 | the codes 0, 1 and 2 load as None, True and False |
| DimebFormat.LoadsUnsigned | client/python/dime/dimeb.py:71-81 | the unsigned codes of 1, 2, 4 and 8 bytes load every number of that width |
| DimebFormat.LoadsSigned | client/python/dime/dimeb.py:59-69 | the signed codes load every number of that width from its two's complement |
| DimebFormat.LoadsBits | client/python/dime/dimeb.py:83-95 | the bytes of single, double and complex numbers come back |
| DimebFormat.LoadsErrors | client/python/dime/dimeb.py:186-225 | a scalar or count that is cut short and a code that stands for nothing are errors |
| DimebFormat.LoadsString | client/python/dime/dimeb.py:151-153 | a string takes what is there, up to its declared length |
| DimebFormat.LoadsArrayShape | client/python/dime/dimeb.py:97-113 | an array of any type and rank comes back with all items; of two dimensions a unit one is dropped, the first one if both are |
| DimebFormat.ReshapedProduct | client/python/dime/dimeb.py:103-107 | dropping a unit dimension keeps the number of items |
| DimebFormat.DimensionAt | client/python/dime/dimeb.py:267 | dimension i is the 32-bit number at byte 4i of the dimensions |
| DimebFormat.ListOfCodes | client/python/dime/dimeb.py:155-167 | the encodings of any values, by whatever encoder, load as the list of the values |
| DimebFormat.DictOfCodes | client/python/dime/dimeb.py:169-184 | encodings of keys and values, by whatever encoder, load as the dict that assigning them in order makes |
| DimebFormat.PutFound | client/python/dime/dimeb.py:182 | assigning to a key that is there keeps its place and replaces the value |
| Dimeb.PutNew | client/python/dime/dimeb.py:182 | assigning to a new key adds one entry at the end |
| DimebFormat.SameKeys | client/python/dime/dimeb.py:182 | integer keys are the same if and only if they are equal, True is 1, False is 0, text is only the same text, None only None |
| DimebFormat.FloatKey | client/python/dime/dimeb.py:83-87 | a float key with integral bits is the same key as an integer if and only if its IEEE 754 value is that integer |
| DimebFormat.SpecialFloats | client/python/dime/dimeb.py:83-87 | both zeros are the key 0; an infinity is no integer; a NaN is no key's equal |
| DimebFormat.DumpsScalars | client/python/dime/dimeb.py:230-274 | the exact bytes, or the exception, for None, booleans, integers, floats, complex numbers and text |
| DimebFormat.DumpsArray | client/python/dime/dimeb.py:248-270 | the exact bytes of an array |
| DimebFormat.DumpsList | client/python/dime/dimeb.py:276-282 | the count and the encodings one after the other, for lists and tuples |
| DimebFormat.DumpsDict | client/python/dime/dimeb.py:284-291 | the count, and key and value of every entry in order |
| Dimeb.EntriesBack | client/python/dime/dimeb.py:169-184 | the same for the entries of a mapping, in order, on top of entries read before |
| Dimeb.SelfDelimiting | client/python/dime/dimeb.py:225-294 | two streams that agree and begin with the encodings of any two values, recoverable or not, go on equally after them, and the values have one normal form |
| Dimeb.PrefixFree | client/python/dime/dimeb.py:225-294 | no encoding of any value is a proper prefix of another, and equal encodings have equal normal forms |
| Dimeb.TupleKeyLost | client/python/dime/dimeb.py:169-184 | a dict with a tuple key is encoded but not loaded |
| Dimeb.LoadArray | client/python/dime/dimeb.py:155-167 | the loop computes what the recursive specification says |
| Dimeb.LoadAssocarray | client/python/dime/dimeb.py:169-184 | the loop computes what the recursive specification says, with keys equal to a dict, such as True, 1 and 1.0, overwritten and unhashable keys refused |
| Dimeb.DumpSequence | client/python/dime/dimeb.py:276-282 | the loop encodes lists and tuples alike |
| Dimeb.DumpMapping | client/python/dime/dimeb.py:284-291 | the loop encodes the entries in order |
| PyClient.Client.Recv | client/python/dime/client.py:427-445 | skips reregister messages, which only move the serialization up, and returns the first other message; it blocks if and only if there is none |
| PyClient.Client.SendR | client/python/dime/client.py:172-221 | ends; on normal return the last messages sent are all variables with the serialization held at return, every message sent was answered and every answer was ok; it raises exactly at the first bad answer and blocks only when answers are missing; restarts are bounded by the rank of the serialization |
| PyClient.Client.ReadAnswers | client/python/dime/client.py:213-217 | reads one answer for each message, up to the first bad one |
| PyClient.Client.SendAnswered | client/python/dime/client.py:189-221 | with no bad answer, and one for each message of the longest possible run, all variables are sent with the serialization held at return |
| PyClient.FramesOrdered | client/python/dime/client.py:439-461 | an output stream that only announces upwards reads as an ordered stream |
| PyClient.ServerOrdered | server/client.c:203-235 | in every run the server's output to a client after its handshake answer is ordered, which is what SendR needs |
| PyClient.AnswerKnown | client/python/dime/client.py:83-103 | a client that asks for pickle or json is never answered with a serialization it has no codec for |
| PyClient.AnswersSay | client/python/dime/client.py:427-437 | Ok is read as a good answer, Error as a bad one, a reregister message as none |
| PyClient.RunAnswers | server/client.c:570-722 | over any run in which a client that is not waiting only sends, it reads exactly one answer for each of its messages, in order, good if and only if somebody was in the group, whatever the others do |

## Left out

- Socket system calls, select and libev, accept, fork, TLS, the HTTP upgrade of
  a WebSocket connection, JSON parsing and printing: received and sent bytes are
  arbitrary chunks, JSON text is bytes with a parameter that says whether it parses,
  commands are an already parsed datatype. The `tls` flag of a handshake is not modelled.
- Allocation failures, error texts, logging, `server/main.c`, `server/log.c`,
  `dime_table_destroy` and `dime_table_apply`.
- Sizes are unbounded integers: `size_t` and the 32-bit reference count do not wrap.
- Dead slots of the table keep no stale key and value; the C code never reads them.
- Framing.EncodeDecodes: a message of 2^32 bytes or more is excluded, because the C
  code adds the two lengths in 32-bit arithmetic; `Framing.PopOne` answers an error
  where the C code would go on with the wrapped size, and `Framing.FrameOne` does so
  for a WebSocket frame whose size does not fit 64 bits.
- Socket.Socket.PopMessage: the same, for a declared size of 2^32 or more.
- Socket.Socket.NextFrame: the same, for a frame size of 2^64 or more.
- The class `Server` keeps clients, groups and messages as values in maps under
  their descriptor, name or id, where the C code has structs and pointers; aliasing
  is not modelled, and freeing a message is removing its id. The maps stand for the
  tables proved in `Table`, the queues for the deques proved in `Deque`.
- Server.Server.Sync: a failed write is taken to have put nothing into the outbuffer; the C code
  may have put a part of the message there.
- BrokerCommands.SyncDelivers: the same.
- Server.Server.Handshake: `order`, the order of the table iteration, is a parameter;
  so it is for broadcast and devices.
- `dime_deque_popr`, which has no caller and updates `begin` where `end` is meant.
- Table.Table.Insert: the load-factor tests are computed exactly, not in floating point.
- Dimeb.RoundTrip: text is its UTF-8 bytes and invalid UTF-8 is not rejected on loading;
  floats and matrix items are their bytes, with a single-precision float kept in its
  4 bytes; the item count of a matrix is not reduced modulo 2^64.
- `broadcast_r` and `sync_r` of the Python client, its connection set-up, and the
  MATLAB and JavaScript clients.
- PyClient.Client.SendR: the answers to come are a given sequence, for all sequences
  the server can produce (`PyClient.ServerOrdered`, `PyClient.RunAnswers`), instead of
  an interleaved run of both sides.
