# A Dafny model of the event loop, TLV codec, timers, lists and message bus

This project models five parts of the system that stand on each other, and proves what they promise:

* **Reactor** (`Frames`, `Reactor`, `Link`): one connection of the event loop. Its receive buffer of 8192 octets
  is cut into length-prefixed frames, and its queue holds what the socket did not take, below a cap of 16384 octets.
  `Link` joins a sender and a receiver by a reliable byte stream and shows that whatever the partial sends and the
  receive chunks were, the frames delivered are those accepted.
* **TLV codec** (`Bytes`, `TlvCodec`, `TlvTree`, `TlvParser`, `TlvPrinter`): a linked tree whose 16-bit lengths are
  kept up to date along the ancestor chain, a recursive printer into a growing buffer, and a parser.
* **Timers** (`HeapOrder`, `MinHeap`, `Timers`): an indexed binary min-heap with back-pointers, and the loop that
  fires due timers while their handlers arm new ones.
* **Intrusive list** (`IntrusiveList`): the doubly linked list with owner pointers, and deleting while iterating.
* **Message bus** (`BusMsg`, `BusState`, `Bus`) and **reassembly of WSC messages** (`CfgMgr`): logins, groups,
  memberships, closes and fan-out as steps of a state machine on values, which the daemon refines; and the consumer
  that puts a fragmented message together and marks the radios it configures.

Where the source changes things in place, the model does too: classes with the source's fields, methods with the
source's loops and branches. Each such method is tied to a function on plain sequences or trees (`Cut`, `Encode`,
`ParseFrom`, `Removed`, `ArmedAfter`, `After`, `Collect`, ...), and what the source promises is proved about those functions.
`dafny verify dfyconfig.toml` checks the whole project.

## What the results say, and where the code falls short of its intent

The code is modelled as it is written. Where a property one would expect is false of it, the model proves exactly
when it holds:

* *A send that would block.* `send` then gives -1, and the queue takes `len + 1` octets from one octet before the
  message, while the caller is told -1. `before` is that octet. `Misfires` names the calls on which stream and answer
  disagree; the stream is the concatenation of the accepted messages if and only if no call has misfired
  (`Reactor.BookOk`, kept by every write), and a message that fits a receive buffer misfires if and only if the
  connection is idle and the socket would block.
* *Deleting a timer.* The slot is refilled by sifting down only. Order is kept if and only if the slot was the root
  or the moved entry is not earlier than the parent of the slot; `DeleteCanBreakOrder` is a heap of seven timers on
  which it is lost, and `SiftingUpRepairs` shows that sifting up as well would always restore it.
* *Re-arming a timer.* It is pushed whether or not it is in the heap. The back-pointers stay right if and only if
  it was not.
* *Deleting a list's head.* The owner of the node that becomes first is cleared as well, so the owners stay right
  if and only if the list had at most one node. Such a node can then be added although it is still in the chain. An
  insertion keeps the chain if and only if the node was not in it; `TangledIsNoList` shows that otherwise the links
  make up no list of the size that is counted.
* *The parse loop* goes on only while strictly more than a header is left, so one trailing empty TLV is dropped. A
  one-octet type passes through `char`; whether that is signed is a parameter. A value that claims more octets than
  there are makes the loop read past the input; the model reports this as `overrun` instead of continuing.
* *Printing what was parsed* gives the octets back if and only if they are whole TLVs of which the last is not empty.
* *The increment of an attachment* is the item's size if and only if the item is an object or its types are as wide
  as its parent's.
* *A connection that the event loop drops* because its buffer is full is not closed towards the daemon: its client
  stays registered. The registry stays consistent if and only if it was not logged in.
* *Names on the bus* are cut to 127 octets when they are stored but not when they are looked up, and a second login
  of a connection replaces its client. A login keeps the registry consistent if and only if the connection was not
  logged in and the name, as it is stored, was not taken.
* *A lone last fragment* is buffered without its header, so the first 22 octets of its TLVs are taken for a header. What is
  parsed is the TLVs of all fragments if and only if there are at least two.
* *A leave request* carries the group name as its raw body, not in a TLV; and the check for a private message's
  receiver tests the sender twice. Both are modelled as they are.

The host is taken to be little-endian. The flag that marks the last fragment is the top bit of octet 21 of a fragment.
Answers of the kernel, clock readings and what handlers do are parameters. Preconditions on octets (`Readable`,
`SafeMessage`, `Receivable`) say that nothing outside the given octets is read.

## Model

| member | source | states |
|---|---|---|
| Frames.CutInChunks | reactor/eloop_event.c:121-188 | cutting a stream in two chunks gives the frames and the rest of cutting it at once: framing does not depend on the chunks |
| Frames.CutKeepsAll | reactor/eloop_event.c:121-140 | frames and rest, put together, are the stream: no octet is lost, repeated or changed |
| Frames.CutFrames | reactor/eloop_event.c:121-140 | a stream of whole frames is cut into exactly these frames with nothing left |
| Frames.CutOfPrefix | reactor/eloop_event.c:121-140 | what a prefix of a stream delivers is a prefix of what the stream delivers |
| Frames.FramedRest | reactor/eloop_event.c:121-140 | if the whole stream is well framed, so is what was left behind followed by the next chunk |
| Frames.RestIsShort | reactor/eloop_event.c:142-188 | what is left after cutting is shorter than the largest frame, so a bounded buffer never fills up |
| Frames.LargeFrameStays | reactor/eloop_event.c:121-188 | a frame that has not come whole stays behind, all of it, however many whole ones came before: one that is larger than the buffer is never delivered, and fills the buffer once 8192 of its octets are in |
| Reactor.Io.constructor | reactor/eloop_event.c:285-294 | a connection that has just been set up satisfies the invariants of both sides |
| Reactor.Io.LoadBody | reactor/eloop_event.c:126 | the signed 32-bit length is the one at the packer's offset in the front frame |
| Reactor.Io.ReadCb | reactor/eloop_event.c:121-140 | exactly the complete frames are delivered, in order, and the pending octets are the rest |
| Reactor.Io.Compact | reactor/eloop_event.c:182-187 | moving the octets to the front keeps them |
| Reactor.Io.Receive | reactor/eloop_event.c:175-188 | tail = head + len; the frames delivered are those of all that was received, the buffer holds the rest; the new tail is given; the buffer is full afterwards exactly when its octets are the beginning of one frame larger than the buffer |
| Reactor.Io.HandleRead | reactor/eloop_event.c:142-188 | each answer of recv: end of stream calls on_close once and resets; octets extend the received stream; the silent reset happens only with a full buffer, which frames that fit the buffer rule out |
| Reactor.Io.ResetIo | reactor/eloop_event.c:296-323 | the record is zeroed and the connection is watched for nothing |
| Reactor.Io.AddEvent | reactor/eloop_event.c:325-341 | the event is added; an entry is added to the interest list where there is none and modified where there is one, so it holds exactly the recorded events |
| Reactor.Io.DelEvent | reactor/eloop_event.c:343-358 | the event is removed; the entry is modified, or deleted with the last event, so the interest list holds exactly the recorded events |
| Reactor.UnsentAppend | reactor/eloop_event.c:39-51 | a message appended to the queue adds its octets behind all unsent ones and its length to the size |
| Reactor.Io.Enqueue | reactor/eloop_event.c:23-52 | an empty message, or one that would reach the cap, is refused without change; any other joins the end of the queue |
| Reactor.Io.Write | reactor/eloop_event.c:54-114 | the backpressure invariant; exactly when a message is accepted; the answer on success is the number of octets the socket took at once, and -1 otherwise; success means the whole message joined the stream; a refused message below the cap has left no octet, unless the socket would have blocked, which leaves it behind a stray one |
| Reactor.AcceptedIff | reactor/eloop_event.c:54-114 | behind others a message is accepted when it is not empty and fits below the cap, and on an idle connection when the socket takes some of it and the rest fits |
| Reactor.MisfiresIff | reactor/eloop_event.c:54-114 | a call misfires exactly when the octets it adds are not the message on success and nothing on failure |
| Reactor.FrameMisfiresIff | reactor/eloop_event.c:60-100 | a message that fits a receive buffer misfires exactly when the connection is idle and the socket would block |
| Reactor.BlockedSendAddsStrayOctet | reactor/eloop_event.c:66-103 | a one-octet message whose send would block is refused, and queued with a stray octet in front |
| Reactor.BookStep | reactor/eloop_event.c:54-114 | every call keeps the account: the stream is the concatenation of the accepted messages exactly when no call has misfired |
| Reactor.Io.HandleWrite | reactor/eloop_event.c:190-227 | the wire grows by exactly what the socket took: all that was left of the items before the one it stops at, and of that one the count it answered; draining keeps the stream and the backpressure invariant: EPOLLOUT is watched exactly while something is queued; a socket that takes everything empties the queue |
| Reactor.WireGrows | reactor/eloop_event.c:194-221 | what joins the wire has the length of the items taken whole and of the last count answered, and is the front of the head item when that is not taken whole |
| Reactor.DrainedFrom | reactor/eloop_event.c:194-221 | the queue that is left begins with the item the socket stops at, its offset moved by the count answered |
| Reactor.DrainShrinks | reactor/eloop_event.c:190-227 | a writable event whose first answer is at least one octet leaves strictly less to send, and no event leaves more |
| Reactor.Io.HandleData | reactor/eloop_event.c:229-254 | a listening socket goes to on_accept, one without a packer to on_read; any other keeps both invariants or is reset, and takes in and sends what `what` says is ready |
| Link.DeliveredArePrefix | reactor/eloop_event.c:54-227 | the frames received so far are a prefix of the frames accepted, and all of them when nothing is left to send or receive |
| Link.TakeStep | reactor/eloop_event.c:54-227 | the answer, the queue, the accepted messages, and how far the receiver has come, are those of the step; octets on their way find room |
| Link.NothingRefused | reactor/eloop_event.c:54-114 | while the messages fit under the memory cap, and the socket neither fails nor blocks, every one of them is accepted |
| Link.Run | reactor/eloop_event.c:54-227 | over every run in which no idle socket blocks: the frames accepted are those of the sends answered without an error, in order; each arrival takes in exactly the octets that are due, on their way and have room, and there is always room; the frames delivered only grow, and are a prefix of those accepted and equal to them once drained |
| Link.Drain | reactor/eloop_event.c:54-227 | from wherever a run has come to, all accepted frames can be delivered |
| Link.DrainFairly | reactor/eloop_event.c:54-227 | however little a fair socket takes and a fair stream brings at a time, all accepted frames are delivered after at most twice the octets queued and once those on their way turns |
| Bytes.Swap16 | agent/tlv_parser.c:9-20 | the two octets of a word are exchanged |
| Bytes.HeaderLoaded | agent/tlv_parser.c:38-82 | loading a header as host words and converting them gives the network-order length and the type, passed through char if it takes one octet |
| Bytes.HeaderRoundTrip | agent/tlv_parser.c:22-82 | a stored header is read as the same length and type, but for the passage through char |
| Bytes.TypeLoaded | agent/tlv_parser.c:38-56 | a loaded type is the number its octets make in network order; of one octet, it is that octet, sign-extended by a signed char |
| TlvCodec.EncodeAllUpdate | agent/tlv_parser.c:200-207 | when one child changes, the encoded total changes by the difference |
| TlvCodec.ParsePrinted | agent/tlv_parser.c:306-488 | parse after print gives the list without one trailing empty TLV, one-octet types passed through char |
| TlvCodec.PrintParsed | agent/tlv_parser.c:455-488 | print after parse gives back the octets the loop went over, which leave at most the room of one empty TLV |
| TlvCodec.StopsAtEndIff | agent/tlv_parser.c:470-486 | the loop covers all octets without an overrun exactly when they are whole TLVs with a last one that is not empty |
| TlvCodec.PrintParsedIff | agent/tlv_parser.c:306-488 | print after parse is the identity on non-empty octets exactly when they are whole TLVs with a last one that is not empty |
| TlvCodec.InlineKeepsCode | agent/tlv_parser.c:331-352 | a nested object is encoded inline: flattening keeps the encoding |
| TlvCodec.ReadBackEncoded | agent/tlv_parser.c:552-608 | reading back level by level what was printed gives the flattened children at every level |
| TlvCodec.TreeRoundTrip | agent/tlv_parser.c:306-608 | a tree whose encoding fits 16 bits is recovered by printing and reading it back, nested objects flattened |
| TlvCodec.ReadBackIsSameIff | agent/tlv_parser.c:306-608 | a tree that fits 16 bits is read back as it is exactly when it has no nested objects, no types that char changes, and no last child that is a bare header |
| TlvTree.TlvNode.CreateTlv | agent/tlv_parser.c:123-145 | a new TLV stands alone, with the length of its value |
| TlvTree.UpPathExists | agent/tlv_parser.c:200-207 | the parent chain of every node ends: the ancestor walk terminates |
| TlvTree.PathClimbs | agent/tlv_parser.c:200-207 | trees get strictly higher along the chain, so no node is its own ancestor |
| TlvTree.Increment | agent/tlv_parser.c:189-198 | the increment counts a header as wide as the parent's types; it is the item's encoded size modulo 2^16 exactly when the item is an object or the widths agree |
| TlvTree.CatchUp | agent/tlv_parser.c:200-207 | one step of the walk puts a node right and leaves only its parent behind |
| TlvTree.WalkUp | agent/tlv_parser.c:200-207 | after the walk every length in the forest is right again |
| TlvTree.AddItemToObject | agent/tlv_parser.c:167-212 | the item becomes the last child; links and lengths of the whole forest stay right; no node off the path changes |
| TlvTree.LengthsAddUp | agent/tlv_parser.c:167-212 | in whatever order things were attached, a node's length is what its children count for, arrays with their header and nested objects inline, and their encoded size while that fits 16 bits |
| TlvParser.AddTlvToObject | agent/tlv_parser.c:214-229 | a new plain TLV is appended and every length stays right |
| TlvParser.ParseObject | agent/tlv_parser.c:455-488 | nothing for less than one header; otherwise a well-linked object of exactly the TLVs found, unless a value overruns the input |
| TlvParser.GetObjectItem | agent/tlv_parser.c:490-509 | the (idx+1)-th child of the type, or null |
| TlvParser.LeafKids | agent/tlv_parser.c:455-509 | the nodes under a parsed object hold the types and values found |
| TlvPrinter.PrintBuffer.Ensure | agent/tlv_parser.c:248-304 | makes room or refuses exactly beyond INT_MAX; keeps what is written and offset < length |
| TlvPrinter.PrintBuffer.PutHeader | agent/tlv_parser.c:321-322 | header octets in network order, also where a one-octet type is first stored as a word |
| TlvPrinter.PrintBuffer.PrintTlv | agent/tlv_parser.c:306-329 | appends the encoding of a plain TLV |
| TlvPrinter.PrintBuffer.PrintArrayHeader | agent/tlv_parser.c:354-372 | appends the array's header, whose length is that of its encoded children |
| TlvPrinter.PrintBuffer.PrintKids | agent/tlv_parser.c:331-352 | appends the encodings of the children in order, refusing exactly when they do not fit |
| TlvPrinter.PrintBuffer.PrintValue | agent/tlv_parser.c:389-409 | appends exactly the recursive encoding of the tree |
| TlvPrinter.Print | agent/tlv_parser.c:411-453 | the encoding of the tree, unless it does not fit INT_MAX; for an object that fits 16 bits it has exactly the object's length |
| HeapOrder.SiftUpKeepsSlots | timer/minheap.c:136-157 | sifting up only moves entries |
| HeapOrder.SiftUpOrders | timer/minheap.c:136-157 | sifting up restores heap order |
| HeapOrder.SiftDownKeepsSlots | timer/minheap.c:159-190 | sifting down only moves entries |
| HeapOrder.SiftDownOrdersIff | timer/minheap.c:159-190 | sifting down restores heap order exactly when the entry is at the root or not earlier than its parent |
| HeapOrder.TopItemIsEarliest | timer/minheap.c:54-61 | the top is the earliest |
| HeapOrder.PushedIsHeap | timer/minheap.c:63-73 | a push adds one entry and keeps order |
| HeapOrder.PushedTwice | timer/mh-timer.c:72-90 | pushing an entry that is in the heap leaves it in two slots |
| HeapOrder.RemovedIsHeapIff | timer/minheap.c:101-118 | a removal takes out one entry and keeps order exactly under the stated condition |
| HeapOrder.RemovedItems | timer/minheap.c:80-118 | exactly the removed entry leaves the member set |
| HeapOrder.DeleteCanBreakOrder | timer/minheap.c:101-118 | seven timers on which a deletion loses heap order |
| HeapOrder.SiftingUpRepairs | timer/minheap.c:101-118 | sifting the moved entry up as well would restore order for every deletion |
| MinHeap.Heap.ShiftUp | timer/minheap.c:136-157 | the slots show the sifted-up heap and every back-pointer names its slot |
| MinHeap.Heap.ShiftDown | timer/minheap.c:159-190 | the slots show the sifted-down heap and every back-pointer names its slot |
| MinHeap.Heap.EnsureCapacity | timer/minheap.c:120-134 | capacity is 8, doubled, or what is needed; the heap is as before |
| MinHeap.Heap.Push | timer/minheap.c:63-73 | the member set grows by the entry; back-pointers stay right exactly when it was not there; a valid heap stays valid |
| MinHeap.Heap.Pop | timer/minheap.c:80-94 | returns the earliest entry, with index -1, and takes it off the member set; a valid heap stays valid |
| MinHeap.Heap.Delete | timer/minheap.c:101-118 | takes exactly the entry off; it gets index -1; the heap stays valid exactly under the stated condition |
| MinHeap.Heap.Perform | timer/minheap.c:63-118 | the slots afterwards, and the entry taken off the top, are those of the operation; the members change as requested; the heap stays valid exactly when a removal meets the stated condition; what is taken is the earliest; every entry in use is in the heap at the slot its index names, or has index -1 |
| MinHeap.OrderAfterIff | timer/minheap.c:63-118 | from a heap in order, an operation leads to one in order exactly when, if it removes an entry, the slot is the root or the moved entry is not earlier than the parent of the slot |
| MinHeap.RunInOrderIff | timer/minheap.c:63-118 | over every run the heap is in order all along exactly when it was at first and every removal met that condition |
| MinHeap.TopsAreEarliest | timer/minheap.c:75-94 | while every removal has met the condition, each entry taken off the top is the earliest of the heap at that point |
| MinHeap.RunOps | timer/minheap.c:63-118 | over every run of such operations the slots and the entries taken are those the operations lead to, the members change operation by operation as requested, indexes are right, and the heap is valid if every removal met the condition |
| Timers.DueAgreesIff | timer/mh-timer.c:102-138 | the signed and the unsigned test for being due agree exactly within half the clock's range |
| Timers.AddTimer | timer/mh-timer.c:46-70 | a new timer is armed at clock plus delay, all others keep their deadlines |
| Timers.ResetTimer | timer/mh-timer.c:72-90 | re-arms at clock plus interval; the heap stays indexed exactly when the timer was not in it |
| Timers.FindNearest | timer/mh-timer.c:102-114 | -1 for no timers; 0 exactly when one is due; otherwise the wait reaches the nearest deadline: no timer is due before it is over, and one is when it is |
| Timers.RunHandler | timer/mh-timer.c:136 | a handler that adds timers and re-arms idle ones, all later than the sampled clock, leaves exactly the timers at the deadlines it asked for, and all others as they were |
| Timers.ExpiringStep | timer/mh-timer.c:119-137 | firing the earliest timer keeps the account of what has fired and what is still due |
| Timers.PassTurn | timer/mh-timer.c:119-137 | one turn fires the top timer, runs its handler, and strictly fewer are due |
| Timers.Expire | timer/mh-timer.c:116-138 | for handlers that arm new or idle timers later than the sampled clock: terminates; fires exactly the timers due at the start, each once, in order of deadline; calls the handler of each, which is told the timers not in the heap then; every timer a handler re-arms is in the heap afterwards at the deadline asked for, every timer it adds has been added, once, and nothing else is in the heap but what was and was not due |
| Timers.ArmedByIs | timer/mh-timer.c:72-90 | actions that re-arm idle timers leave these at the deadlines asked for, and all others as they were |
| Timers.CallsAreAccounted | timer/mh-timer.c:116-138 | over a pass the armed timers are those the handlers asked for, at the deadlines they asked for, and those that were armed and have not fired |
| Timers.AddsAreAccounted | timer/mh-timer.c:116-138 | over a pass the timers added are as many as the handlers asked for, and no others |
| IntrusiveList.SplicedIsLinked | util/list.c:150-192 | the links set by an insertion make one chain with the node in its place |
| IntrusiveList.BridgedIsLinked | util/list.c:260-299 | neighbours pointed at each other make one chain without the node |
| IntrusiveList.List.AddHead | util/list.c:107-126 | the node is put in front, or refused when the list owns it; a node that is in the chain already, though not owned, tangles it |
| IntrusiveList.List.AddTail | util/list.c:128-148 | the node is put at the end, or refused when the list owns it; a node that is in the chain already, though not owned, tangles it |
| IntrusiveList.List.AddAfter | util/list.c:150-170 | the node is put just after a node of the list; a node that is in the chain already, though not owned, tangles it |
| IntrusiveList.List.AddBefore | util/list.c:172-192 | the node is put just before a node of the list; a node that is in the chain already, though not owned, tangles it |
| IntrusiveList.TangledIsNoList | util/list.c:107-244 | after a second insertion of a node in the chain, no sequence of as many nodes as the list counts is linked from its head |
| IntrusiveList.List.At | util/list.c:197-212 | the node at an index; index -k is the k-th from the back; null exactly out of range |
| IntrusiveList.List.InsertAt | util/list.c:214-244 | the node is inserted at the index, or refused exactly when owned or out of range; a node that is in the chain already, though not owned, tangles it |
| IntrusiveList.List.Del | util/list.c:260-299 | exactly this node leaves the chain and is owned by no list |
| IntrusiveList.List.DelByIndex | util/list.c:308-323 | the node at the index leaves the chain and is returned |
| IntrusiveList.List.DelHead | util/list.c:325-345 | the first node leaves the chain; owners stay right exactly when at most one node was there |
| IntrusiveList.List.DelTail | util/list.c:347-366 | the last node leaves the chain, owners stay right |
| IntrusiveList.List.PopHead | util/list.c:368-373 | the first node is returned and leaves; owners as for deleting the head |
| IntrusiveList.List.PopTail | util/list.c:375-380 | the last node is returned and leaves |
| IntrusiveList.List.Contains | util/list.c:86-105 | membership, by a walk with an iterator |
| IntrusiveList.Iter.Next | util/list.c:48-65 | yields the node it stood on, having moved past it |
| IntrusiveList.SweepStep | util/list.c:48-65 | unlinking the node just yielded leaves the iterator on the next original node |
| IntrusiveList.Sweep | util/list.c:48-65 | a traversal that unlinks nodes as it goes meets every original node once in order, and a node is in the list afterwards exactly when it was not to be dropped |
| IntrusiveList.KeptInOrder | util/list.c:48-65 | each node kept comes just after those before it that are kept |
| BusMsg.CStringOfName | mbus/bus_msg.c:264-267 | a name stored with its zero is read back as the same name |
| BusMsg.MessageIsFrame | mbus/bus_msg.c:359-376 | a message is one frame of the bus packer and carries its command and body |
| BusMsg.NewMessage | mbus/bus_msg.c:257-298 | whatever the sizes: the message is its header and the encoding of sender, addressee and payload, each cut, like the whole, to the octets that its 16-bit length counts |
| BusMsg.BuiltIsWholeIff | mbus/bus_msg.c:257-298 | nothing is cut exactly when the three TLVs fit 16 bits together |
| BusMsg.DecodeEncoded | mbus/bus_msg.c:23-341 | a built message is decoded to the same sender, addressee and payload, exactly when the payload is not empty |
| BusMsg.HandleMessage | mbus/bus_msg.c:23-67 | the callback gets the first TLV of each type, or is not called when one is missing |
| BusMsg.NewRequest | mbus/bus_msg.c:119-160 | a request of one name is its header and one TLV with the name and its zero; an empty name is refused |
| BusMsg.NameIsFound | mbus/mbusd.c:30-41 | the name in a built request is found again, whatever its type |
| BusMsg.RequestIsFrame | mbus/bus_msg.c:139-153 | a built request is one frame that carries its command and its name |
| BusState.NameInRequest | mbus/mbusd.c:36-49 | a request carries exactly the name that it was built for |
| BusState.LoginLogsIn | mbus/mbusd.c:26-59 | a built login request logs its connection in under its name, as far as that fits a name buffer, unless the name is taken |
| BusState.CreateMakesGroup | mbus/mbusd.c:61-90 | a built request to create a group makes an empty group of that name, unless there is one, and changes nothing else |
| BusState.JoinMakesMember | mbus/mbusd.c:92-126 | a built request to join makes the user of a logged-in connection a member of the group there is, once, and changes nothing else |
| BusState.LeaveEndsMembership | mbus/mbusd.c:128-136 | a request to leave ends the membership of the user in the group named, and changes no other member and no other group |
| BusState.HeartbeatIsEchoed | mbus/mbusd.c:17-24 | a heartbeat is sent back to its sender and changes nothing |
| BusState.WithoutDistinct | mbus/group_manager.c:124-141 | a user that left is not a member any more, the other members are the same |
| BusState.StepIsConsistent | mbus/mbusd.c:26-325 | an event that keeps its condition keeps the registry consistent: users are logged in once, members are logged in and distinct |
| BusState.RunIsConsistent | mbus/mbusd.c:26-325 | over every orderly run the registry stays consistent |
| BusState.RunGoesOn | mbus/mbusd.c:278-325 | one more event is one more step, and its offers come after those of the run |
| BusState.ClosedIsOut | mbus/mbusd.c:314-325 | a connection that is closed, and then does not ask to log in again, is not logged in at the end of the run |
| BusState.ClosedIsInNoGroup | mbus/mbusd.c:314-325 | a user that was closed, and whose name nobody then asks for, is logged in nowhere and is in no group at the end of the run |
| Bus.Daemon.LoginKeepsUsersIff | mbus/mbusd.c:46-57 | users stay consistent exactly when the connection was not logged in and the stored name was new |
| Bus.Daemon.Register | mbus/mbusd.c:49-57 | client and connection point at each other; users stay consistent exactly when the connection was not logged in and the stored name was new |
| Bus.Daemon.HandleLogin | mbus/mbusd.c:26-59 | creates a client exactly for a new name, paired with the connection; the name is that of the request (NameInRequest) |
| Bus.Daemon.HandleCreateGroup | mbus/mbusd.c:61-90 | creates an empty group exactly for a new name; group names stay distinct exactly when the stored name was new |
| Bus.TakenIsNoticedIff | mbus/user_manager.c:10-39 | registering a name twice is refused exactly when the name fits its buffer |
| Bus.Daemon.JoinGroup | mbus/group_manager.c:59-95 | joins exactly when the group exists and the user is not in it; no other group changes |
| Bus.Daemon.LeaveGroup | mbus/group_manager.c:124-141 | takes the user out exactly when it was in |
| Bus.Daemon.HandleJoin | mbus/mbusd.c:92-126 | only the group named changes, by the user joining it; the registry stays consistent |
| Bus.Daemon.HandleLeave | mbus/mbusd.c:128-136 | only the group named by the raw body changes, by the user leaving it |
| Bus.Daemon.LeaveAllGroups | mbus/group_manager.c:143-158 | every group loses exactly this user's membership |
| Bus.CloseKeepsUsers | mbus/user_manager.c:41-52 | without the closed user, clients and connections still point at each other |
| Bus.Daemon.HandleClose | mbus/mbusd.c:314-325 | the first client of that name is taken off and the name leaves every group; a consistent registry stays so, without the closed user and with all others |
| Bus.Daemon.OfferedOnceEach | mbus/group_manager.c:161-184 | a forwarded frame is offered unchanged exactly once per member other than the sender, and to no other connection |
| Bus.Daemon.ForwardInGroup | mbus/mbusd.c:172-195 | the offers made are those of the fan-out over the group's members |
| Bus.Daemon.GroupDelivery | mbus/mbusd.c:197-240 | a client's group message is offered, byte for byte, exactly once to each other member, and to nobody when payload, group name or group is missing |
| Bus.GroupMessageArrives | mbus/bus_msg.c:257-298 | a built group message is one frame, safe to handle, and decoded to the same sender, group and payload |
| Bus.Daemon.PrivateDelivery | mbus/mbusd.c:242-276 | a client's private message is offered, byte for byte, exactly once, on the one connection logged in under the name, and to nobody when the payload is empty or nobody has that name |
| Bus.PrivateMessageArrives | mbus/bus_msg.c:300-341 | a built private message is one frame, safe to handle, and decoded to the same sender, user and payload |
| Bus.Daemon.HandleGroupMsg | mbus/mbusd.c:197-240 | a complete message of a logged-in user for an existing group makes the fan-out's offers, any other message none |
| Bus.Daemon.HandlePrivateMsg | mbus/mbusd.c:242-276 | a message for a registered user is offered to that user's connection only |
| Bus.Daemon.HandleMsg | mbus/mbusd.c:278-306 | what each command does to clients, groups, members and offers, and that nothing else changes; the registry stays consistent exactly when a login that succeeds is on a connection not logged in and a name that is registered is new as it is stored |
| Bus.Daemon.PassOn | mbus/mbusd.c:282-302 | heartbeats are echoed; group and private messages make their offers |
| Bus.Daemon.HandleDrop | reactor/eloop_event.c:147-151 | a connection that is dropped without on_close leaves the registry consistent exactly when it was not logged in |
| Bus.Daemon.RegIsConsistent | mbus/mbusd.c:26-136 | a consistent registry of the daemon shows a consistent registry on values |
| Bus.Daemon.OffersMatch | mbus/mbusd.c:138-276 | the offers a message leads to are those computed from the registry on values |
| Bus.Daemon.Serve | mbus/mbusd.c:278-325 | every event is one step of the registry on values, with the offers of that step; the registry stays consistent exactly when the step keeps its condition |
| Bus.Daemon.Run | mbus/mbusd.c:26-325 | over every interleaving of messages, closes and drops that keeps the condition step by step: users, groups and members are those the events lead to, and the offers made are exactly those of the events, in order |
| CfgMgr.ReassembledIff | cfg_mgr/cfg_mgr.c:335-378 | the octets parsed are the TLVs of all fragments in order exactly when there are at least two |
| CfgMgr.ScannedIffNamed | cfg_mgr/cfg_mgr.c:300-329 | when every WSC TLV parses, the radios configured are exactly those some WSC TLV names first in its RF bands |
| CfgMgr.RearmedIff | cfg_mgr/cfg_mgr.c:300-329 | a message re-arms the timer at most once per WSC TLV, and at all exactly when it configures a radio |
| CfgMgr.BuiltNames | cfg_mgr/cfg_mgr.c:313-326 | WSC data built with an RF-bands attribute names radio 0 exactly for band 1 and radio 1 exactly for band 2 |
| CfgMgr.BuiltIsScanned | cfg_mgr/cfg_mgr.c:295-333 | of built TLVs the radios configured are those of the bands announced before a TLV too short to be parsed, and the timer is re-armed once for each announcement |
| CfgMgr.Manager.BandsAreMarked | cfg_mgr/cfg_mgr.c:295-333 | after a built message radio 0 is configured exactly when 2.4 GHz was announced or it was before, and radio 1 exactly when 5 GHz was or it was before |
| CfgMgr.Manager.constructor | cfg_mgr/cfg_mgr.c:63-79 | nothing is buffered and no radio is configured at the start |
| CfgMgr.Manager.Ensure | cfg_mgr/cfg_mgr.c:89-145 | makes room or refuses exactly beyond INT_MAX, and keeps what is buffered |
| CfgMgr.Manager.Configure | cfg_mgr/cfg_mgr.c:307-326 | one WSC TLV marks the radio its first RF-bands attribute names and re-arms the timer once for it; the scan goes on exactly when the TLV parses |
| CfgMgr.Manager.ParseWsc | cfg_mgr/cfg_mgr.c:295-333 | radios named before the first WSC TLV that does not parse are configured, the others unchanged, and the timer is re-armed once per TLV that names one; which radio a built band names is BandsAreMarked |
| CfgMgr.Manager.HandleWsc | cfg_mgr/cfg_mgr.c:335-378 | a fragment is buffered, or completes a message that is parsed and leaves the buffer empty, or is dropped when it does not fit |
| CfgMgr.Manager.HandleRun | cfg_mgr/cfg_mgr.c:335-378 | over a run of fragments the parsed octets are their TLVs in order exactly when there are at least two; the buffer is empty again and ready for the next run |

## Left out

- Reactor.Io.HandleWrite: the write queue is a sequence field; that the intrusive list represents a sequence, also while nodes are deleted under an iterator, is proved in IntrusiveList. Freeing memory is not modelled.
- Reactor.Io.HandleRead: headers whose frame size, header included, is not positive (see Reactor.Io.ReadCb). The callback on_read is recorded, not run.
- Reactor.Io.ReadCb: a header that announces a frame of no or a negative number of octets is excluded; the source then stays where it is for ever, or steps backwards out of the received octets. Smaller frames than a header are in.
- Reactor.Io.Receive: as for Reactor.Io.ReadCb.
- Reactor.Io.HandleData: received headers as for Reactor.Io.ReadCb; what on_accept, and on_read without a packer, do (that they are called is counted); that eloop_run notes the kernel's events in `what` before, and runs the timers after.
- Link.Run: sends on an idle connection whose socket would block are excluded, because they put a stray octet on the stream (FrameMisfiresIff shows that these are the only ones); all other branches are in.
- TlvTree.AddItemToObject: one type width for the whole tree (Increment shows what a different width does to the lengths); attaching to a plain TLV, and attaching an item that has a parent already or that is above the new parent, are excluded. Deleting a tree is not modelled.
- TlvParser.AddTlvToObject: as for TlvTree.AddItemToObject.
- TlvParser.ParseObject: what the source does after a value has run past the end of the input (it reads on outside of it) is only reported.
- Timers.Expire: handlers that delete timers, that re-arm a timer which is still in the heap (ResetTimer says what that does), or that arm deadlines not later than the sampled clock.
- Timers.RunHandler: as for Timers.Expire.
- Timers.PassTurn: as for Timers.Expire.
- Timers.FindNearest: clock and deadlines more than half the clock's range apart; DueAgreesIff shows that the two tests for being due then disagree.
- MinHeap.Heap.Delete: its entry, if it has an index, has to sit in this heap at that index; RunOps shows that this holds over every run on entries of this heap.
- MinHeap.Heap.EnsureCapacity: the 32-bit overflow of sizes near 2^32.
- Bus.Daemon.Run: the lists of clients, groups and members are sequence fields; the connection's slot is a number. Heartbeats are echoed without the pause.
- BusMsg.HandleMessage: bodies with a TLV that overruns them; the source then reads on outside the message.
- Bus.Daemon.HandleLogin: as for Bus.Daemon.HandleMsg.
- Bus.Daemon.HandleCreateGroup: as for Bus.Daemon.HandleMsg.
- Bus.Daemon.HandleJoin: as for Bus.Daemon.HandleMsg.
- Bus.Daemon.HandleLeave: a raw body without a terminating zero, which the source reads past the end of.
- Bus.Daemon.HandleGroupMsg: as for Bus.Daemon.HandleMsg.
- Bus.Daemon.HandlePrivateMsg: as for Bus.Daemon.HandleMsg; and a message with sender and payload but no receiver, on which the source follows a null pointer.
- Bus.Daemon.PassOn: as for Bus.Daemon.HandlePrivateMsg.
- Bus.Daemon.HandleClose: a list that holds the same group object twice, which no operation makes.
- Bus.Daemon.HandleMsg: bodies with a TLV that overruns them or a name without its zero, from which the source reads outside the message.
- CfgMgr.Manager.Configure: re-arming the autoconfiguration timer is counted; a message with two such TLVs re-arms it while it is still in the heap, and ResetTimer says what that does.
- CfgMgr.Manager.ParseWsc: as for CfgMgr.Manager.HandleWsc.
- CfgMgr.Manager.HandleRun: as for CfgMgr.Manager.HandleWsc.
- CfgMgr.Manager.HandleWsc: WSC data that is read beyond its end (a TLV that overruns, an empty RF-bands attribute) is excluded; a message shorter than one CMDU header too.
- Sockets, epoll, the clock source, mutexes, logging, pauses and failed allocations: kernel answers and clock readings are parameters, allocation succeeds.
- First-in-first-out order among timers with equal deadlines: the heap does not give it.
- The CMDU and M1 senders (agent/cmdu.c, agent/wsc.c and the senders of cfg_mgr/cfg_mgr.c): fixed message templates.
- The packet filter and interfaces (agent/ieee1905_network.c), neighbour lookups (agent/core.c), the autoconfiguration radio states driven by the timer, threadpool/, and the command-line and test programs.
