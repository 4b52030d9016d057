# Verified model of the Exec02 programs

The repository is a collection of small C and C++ programs. This project models the ones that keep
real state and proves what they are for:

- the **chat system** (`MyChat/`): wire message, framing, server, client, and the two joined by TCP
  connections, as atomic steps of completion handlers;
- the **producers and consumers** around a lock-free stack (`MyUtil/LockFreeMain.cpp`), in every
  interleaving;
- the **echo connection** (`MyChat/MyTCPSrv01.cpp`) with its reused buffer and its wait flags;
- **insertion sort and quicksort** (`MyUtil/MySort.c`) and the **heap** (`Project1/MyTestMain01.cpp`);
- the **containers**: linked list, queue, stack and event queue (`Project1/`), ring buffer and `strsep`
  (`MyUtil/`).

Where the source updates objects or arrays in place, so does the model: each class or method is
specified by a step or function on values, and what the source promises is proved of those, for all
inputs and over all runs. A run is any sequence of states that starts empty and in which each state
follows from the one before by an enabled event; run lemmas speak about every state of every run. Beside
each safety result over runs stands one about what can still happen: from every point of every run there is
a continuation in which the work gets done.

| file | content |
|---|---|
| `Wrappers.dfy` | the option type and bytes |
| `ChatMessages.dfy` | `chat_message`: clamp, `encode_header`, `decode_header`, `atoi`, message building |
| `Framing.dfy` | streams of messages, the header/body reader and the write queue, shared by both programs |
| `ChatServer.dfy` | the server as a state machine, and its run theorems |
| `ChatRoom.dfy` | room and session objects; every handler is one step of that machine |
| `ChatClient.dfy` | the client, as a state machine and as an object |
| `ChatSystem.dfy` | server and clients together: the end-to-end theorems |
| `ChatProgress.dfy` | continuations of any run of the whole system that bring what is typed to the screens |
| `LockFree.dfy` | producers, consumers and the done flag |
| `Echo.dfy` | the echo connection |
| `Comparing.dfy`, `InsertionSort.dfy`, `Partition.dfy`, `QuickSort.dfy` | sorting with an arbitrary comparator |
| `QuickSortAsWritten.dfy` | exactly what quicksort achieves with the left scan as written |
| `Heap.dfy` | the max-heap, on values (`HeapSpec`) and in place (`HeapObject`) |
| `LinkedList.dfy` | list, queue, stack (`LinkedList`) and event queue (`Events`) |
| `CircularQueue.dfy` | the ring buffer |
| `StringSep.dfy` | `strsep` |

## Assumptions

- `decode_header` passes size 4 for a five-byte buffer to `strncat_s` (`MyChat/MyChatMessage.hpp:69-71`),
  which leaves no room for four characters and a terminator. The model follows the meant reading: all four
  header bytes, then `atoi`. The int result is converted to a 32-bit `size_t`, so a negative length becomes
  a huge one and is refused; a wider `size_t` gives the same answers.
- TCP delivers a prefix of the bytes sent, in order, and may stop at any point. A session without one of our
  clients at the other end may receive any bytes at all. Handlers run one at a time, on one thread.
- `boost::lockfree::stack` is an atomic stack whose push may fail at any time and whose pop fails only when
  the stack is empty. The counters are unbounded; they are proved never to exceed producers x iterations,
  which is 10 000 000 in the source and fits its 32-bit counters.
- `rand()` and the success of `malloc` are parameters. For `qksort` they are read from a finite tape with one
  entry for each call of `partition`: a run that returns uses a finite part of it, and a run that does
  not return runs off every tape.
- The left scan at `MyUtil/MySort.c:76` lacks `< 0`. Both readings are modelled: `AsWritten` and `Meant`.
- `initCirQue` (`MyUtil/MyCircleQueue.c:28-31`) only allocates. The ring starts from the meant empty state, with
  `front`, `rear` and `count` zero and `capacity` set.
- Comparators are total preorders: consistent, but free to treat distinct keys as equal.

## Results where the code falls short

- As written, `partition` does not always leave everything up to its result at most the pivot. It does so if and
  only if, before the first element above the pivot, there are at least as many elements equal to the pivot as
  there are elements at most the pivot behind it (`Partition.AsWrittenSplitsIff`).
- As written, `qksort` can return 0 with its range unsorted: `[3, 1, 2]` can become `[1, 3, 2]`
  (`QuickSortAsWritten.AsWrittenDoesNotSort`). It sorts its range whatever is chosen if and only if no element of the
  range has two strictly smaller ones behind it (`QuickSortAsWritten.AsWrittenSortsIff`). As meant it always sorts
  (`QuickSort.QksortSorts`).
- `qksort` need not return. As written it can go on for any number of calls of `partition` if and only if its range
  holds two elements that differ (`QuickSortAsWritten.AsWrittenRunsOnIff`). In either reading a run has returned 0 if
  and only if k - i of its calls returned an index other than the last (`QuickSort.ReturnsIff`), which
  `Partition.LastIndexIff` decides for each call; choices that avoid the last element bring that about in k - i calls
  (`QuickSort.QksortEnds`), and choosing a last element that stands out prevents it (`QuickSort.QksortStuck`).
- The heap's print loop stops at the first -1 that `deleteMax` returns, so it prints everything if and only if -1
  is not stored (`HeapSpec.DrainPrints`).
- A heap of capacity 0 has no room for the first element, and doubling gives it none: the source would write past its
  array exactly then (`HeapObject.Heap.Insert`).
- Without any consumer the stack keeps what was produced; with at least one, nothing is left
  (`LockFree.AllConsumed`).

## Model

| member | source | states |
|---|---|---|
| ChatMessages.HeaderRoundTrip | MyChat/MyChatMessage.hpp:67-87 | for every body length up to 512, `"%4d"` gives exactly four bytes and `decode_header` reads the same length back |
| ChatMessages.HeaderAccepted | MyChat/MyChatMessage.hpp:67-79 | a header is accepted if and only if its number lies in 0..512, negative numbers being refused through the conversion to `size_t` |
| ChatMessages.FormatBytes | MyChat/MyChatMessage.hpp:81-87 | the four header bytes for every length up to 512, digit by digit |
| ChatMessages.AtoiReads | MyChat/MyChatMessage.hpp:67-72 | on any text `atoi` skips white space, takes at most one sign, and yields the signed value that the longest run of digits denotes |
| ChatMessages.NegativeRefused | MyChat/MyChatMessage.hpp:67-79 | a header of spaces, a minus sign and a number that does not start with 0 is refused |
| ChatMessages.ChatMessage.SetBodyLength | MyChat/MyChatMessage.hpp:60-65 | the length is clamped to 512 |
| ChatMessages.ChatMessage.EncodeHeader | MyChat/MyChatMessage.hpp:81-87 | whatever the buffer held, its header now announces its own body, and only the header changed |
| ChatMessages.ChatMessage.DecodeHeader | MyChat/MyChatMessage.hpp:67-79 | on acceptance the message announces its own body; on refusal the length is 0 |
| ChatMessages.BuildMessage | MyChat/MyTCPChatCli01.cpp:149-156 | the message built from a line carries the line up to its first NUL, cut at 512 bytes, under a header that a reader accepts; a line of at most 512 bytes without a NUL is carried as it is |
| ChatMessages.SendableIsLongest | MyChat/MyTCPChatCli01.cpp:153-154 | what is sent of a line is its longest prefix without a NUL and of at most 512 bytes |
| ChatMessages.SendableWhole | MyChat/MyTCPChatCli01.cpp:149-156 | a line is sent as it is if and only if it has at most 512 bytes and no NUL |
| Framing.FramesRoundTrip | MyChat/MyTCPChatSrv01.cpp:102-146 | the concatenation of any acceptable frames, canonical or not, is read back as exactly those frames |
| Framing.FramesPrefix | MyChat/MyTCPChatSrv01.cpp:102-137 | reading is monotone: more bytes only add messages at the end |
| Framing.FramesOfCut | MyChat/MyTCPChatSrv01.cpp:102-137 | any cut of a stream of frames is read as a prefix of them |
| Framing.FramesSound | MyChat/MyTCPChatSrv01.cpp:102-137 | from any bytes whatever, what is read is acceptable and is a prefix of the bytes |
| Framing.ReaderRefinesFrames | MyChat/MyTCPChatSrv01.cpp:102-137 | in every phase, also after a refused header or a failed read, what the event-driven reader has handed on is a prefix of what the whole stream so far contains, and is all of it if and only if no bodiless message is waiting for its empty body |
| Framing.ReadsOneFrame | MyChat/MyTCPChatSrv01.cpp:102-137 | an accepted header leads on to its body, whose completion hands on the message as it came and asks for the next header |
| Framing.StopsAtRefusal | MyChat/MyTCPChatSrv01.cpp:107-116 | reading stops at a header if and only if its number lies outside 0..512 |
| Framing.ReadsWhatIsThere | MyChat/MyTCPChatSrv01.cpp:102-137 | run on any bytes whatsoever, the handlers hand on exactly the messages of the reference reading, and give up if and only if a refused header comes next |
| Framing.ReadsAllFrames | MyChat/MyTCPChatSrv01.cpp:102-137 | the concatenation of any acceptable frames is handed on completely, and the next header is asked for |
| Framing.NextRead | MyChat/MyTCPChatSrv01.cpp:102-137 | on a stream of acceptable frames every read finds its bytes and an acceptable header until all frames are handed on |
| Framing.BodyReadInv | MyChat/MyTCPChatSrv01.cpp:120-137 | a completed body hands on one message that announces its own body, and accounts for every byte taken |
| Framing.PushAllInv | MyChat/MyTCPChatSrv01.cpp:91-99 | any number of deliveries appends exactly these messages and never starts a second write |
| Framing.WriteDoneInv | MyChat/MyTCPChatSrv01.cpp:139-160 | completing a write moves the front from the queue to what was sent, and starts the next write if there is one |
| Framing.WritesFront | MyChat/MyTCPChatSrv01.cpp:139-160 | while no write has failed the front can be written out completely and then leaves the queue |
| Framing.OutboundIsPrefix | MyChat/MyTCPChatSrv01.cpp:139-160 | the bytes on the wire are a prefix of the queued messages, through partial writes and failures |
| Framing.PeerReadsPrefix | MyChat/MyTCPChatCli01.cpp:66-122 | a peer that has read any part of the wire has been handed, byte for byte, a prefix of the messages queued |
| ChatServer.RecentAfter | MyChat/MyTCPChatSrv01.cpp:56-60 | pushing and trimming turns the last min(100, n) messages of a history into the last min(100, n + 1) of the longer one |
| ChatServer.NewSessionInv | MyChat/MyTCPChatSrv01.cpp:44-49 | a session that joins is given exactly the recent messages, in order, with one write outstanding if there are any |
| ChatServer.BroadcastKeepsInv | MyChat/MyTCPChatSrv01.cpp:56-64 | a delivery extends the slice of every participant by the message and no other session's |
| ChatServer.StepKeepsInv | MyChat/MyTCPChatSrv01.cpp:41-166 | every handler keeps the invariant that ties queues, wire, reader, room and history together |
| ChatServer.RunKeepsInv | MyChat/MyTCPChatSrv01.cpp:41-166 | the invariant holds in every state of every run |
| ChatServer.SessionReceivesSlice | MyChat/MyTCPChatSrv01.cpp:44-64 | in every state of every run, messages written followed by `write_msgs_` are one contiguous slice of the history, from max(0, join point - 100) to the leave point or now |
| ChatServer.SessionsAgree | MyChat/MyTCPChatSrv01.cpp:44-64 | any two sessions were given the same message at every history position that both cover |
| ChatServer.ForwardedReadsBack | MyChat/MyTCPChatSrv01.cpp:102-160 | whatever headers the senders used, the bytes forwarded to a session re-parse as a prefix of its slice, and as all of it when its queue is empty |
| ChatServer.WriteDiscipline | MyChat/MyTCPChatSrv01.cpp:91-99 | never two writes outstanding; exactly one if and only if the queue is not empty and no write has failed; a failed write has removed the session |
| ChatServer.MembershipIff | MyChat/MyTCPChatSrv01.cpp:51-54 | a session is in `participants_` if and only if neither its reading nor its writing has failed |
| ChatServer.StepFate | MyChat/MyTCPChatSrv01.cpp:102-160 | exactly which events end the reading, the writing and the membership of a session |
| ChatServer.SessionFate | MyChat/MyTCPChatSrv01.cpp:102-160 | over runs: a session has stopped reading if and only if a read of its has failed or brought a refused header, its writing has failed if and only if a write has, and it is in the room if and only if neither has happened |
| ChatServer.SliceByEvents | MyChat/MyTCPChatSrv01.cpp:44-64 | told by events alone: a session is given the last hundred messages delivered before its acceptance and everything delivered from then until its departure |
| ChatServer.ArrivalIsDelivered | MyChat/MyTCPChatSrv01.cpp:102-137 | any acceptable message that arrives from any peer is read and delivered as it came to everybody in the room |
| ChatServer.RunEvolves | MyChat/MyTCPChatSrv01.cpp:85-160 | over any stretch of any run everything recorded only grows, the message being written stays at the front unchanged until it is done, and nothing is appended after a departure or a failed write |
| ChatRoom.ChatSession.Deliver | MyChat/MyTCPChatSrv01.cpp:91-99 | appends the message and starts a write only if the queue was empty |
| ChatRoom.ChatSession.OnHeader | MyChat/MyTCPChatSrv01.cpp:102-118 | the handler performs exactly the machine's step: on to the body, or leave the room |
| ChatRoom.ChatSession.OnBody | MyChat/MyTCPChatSrv01.cpp:120-137 | the handler performs exactly the machine's step: deliver to the room and read the next header, or leave |
| ChatRoom.ChatSession.OnWritten | MyChat/MyTCPChatSrv01.cpp:139-160 | the handler performs exactly the machine's step: pop and go on writing, or leave |
| ChatRoom.ChatRoom.Join | MyChat/MyTCPChatSrv01.cpp:44-49 | the replay loop gives the new participant all recent messages |
| ChatRoom.ChatRoom.Leave | MyChat/MyTCPChatSrv01.cpp:51-54 | only this session's membership changes |
| ChatRoom.ChatRoom.Deliver | MyChat/MyTCPChatSrv01.cpp:56-64 | trimming and broadcasting in an arbitrary order is the machine's broadcast |
| ChatRoom.ChatRoom.Accept | MyChat/MyTCPChatSrv01.cpp:181-193 | an accepted connection becomes a session that has joined and reads a header |
| ChatClient.StepKeepsInv | MyChat/MyTCPChatCli01.cpp:34-122 | every handler of the client keeps: posted and queued messages are the typed lines, printed bodies are the messages read, and a failed read or write closes the socket |
| ChatClient.PeerIsHandedTheLines | MyChat/MyTCPChatCli01.cpp:34-46 | whoever reads what the client wrote is handed a prefix of what it queued, the k-th message carrying the k-th typed line |
| ChatClient.StepFate | MyChat/MyTCPChatCli01.cpp:48-122 | exactly which events close the connection and end the reading |
| ChatClient.ChatClient.TypeLine | MyChat/MyTCPChatCli01.cpp:149-159 | a round of the input loop posts an acceptable message with the line; a line that does not fit ends the loop and posts nothing |
| ChatClient.ChatClient.OnPosted | MyChat/MyTCPChatCli01.cpp:34-46 | the posted handler appends the message, and starts a write only if the queue was empty |
| ChatClient.ChatClient.OnHeader | MyChat/MyTCPChatCli01.cpp:66-81 | the handler performs exactly the machine's step |
| ChatClient.ChatClient.OnBody | MyChat/MyTCPChatCli01.cpp:83-100 | the handler performs exactly the machine's step: print and go on, or close |
| ChatClient.ChatClient.OnWritten | MyChat/MyTCPChatCli01.cpp:102-122 | the handler performs exactly the machine's step |
| ChatSystem.HandedIsPrefixOfQueued | MyChat/MyTCPChatSrv01.cpp:102-137 | in every state of every run of the whole system, what a session handed to the room is byte for byte a prefix of what its client queued, and carries the lines typed |
| ChatSystem.PrintedIsPrefixOfSlice | MyChat/MyTCPChatCli01.cpp:66-100 | in every state of every run, what a client printed is a prefix of the bodies of its session's slice of the history |
| ChatSystem.FromAtRank | MyChat/MyTCPChatSrv01.cpp:120-137 | the history, restricted to one session, is what that session handed over, in order |
| ChatSystem.PrintedLineWasTyped | MyChat/MyTCPChatCli01.cpp:83-100 | every line printed by any client is the line with the corresponding number typed at the client that sent it: nothing is invented, altered, duplicated or reordered end to end; a line without a NUL is printed exactly as typed |
| ChatSystem.ClosedIff | MyChat/MyTCPChatCli01.cpp:48-122 | over runs: a client has closed its connection if and only if its close handler ran, a read or write of its failed, or it read a refused header |
| ChatProgress.ConnectionCanBeMade | MyChat/MyTCPChatCli01.cpp:54-64 | at any point of any run a client can be started, accepted and connected |
| ChatProgress.TypedReachesRoom | MyChat/MyTCPChatCli01.cpp:34-46 | from every point of every run there is a continuation in which every line typed at a connected client is in the history, in order |
| ChatProgress.RoomReachesScreen | MyChat/MyTCPChatCli01.cpp:66-100 | from every point of every run there is a continuation in which a connected client has printed its whole slice of the history |
| ChatProgress.TypedCanBePrinted | MyChat/MyTCPChatCli01.cpp:66-122 | the two together: every line typed at one connected client can be printed by any, unless it was delivered more than a hundred messages before that one joined |
| ChatProgress.NextLineCanBePrinted | MyChat/MyTCPChatCli01.cpp:149-157 | whatever line of at most 512 bytes without a NUL is typed next at a connected client, it can be printed as it is, and anew, by any connected client |
| LockFree.StepKeepsConserved | MyUtil/LockFreeMain.cpp:18-39 | every atomic access keeps each number in exactly one place: in a producer's hand, on the stack, or popped |
| LockFree.StepKeepsHandshake | MyUtil/LockFreeMain.cpp:29-62 | the flag is up only when no push can follow, and a returned consumer leaves an empty stack for good |
| LockFree.NothingTwice | MyUtil/LockFreeMain.cpp:18-39 | at every point of every interleaving no value was popped twice or before it was produced, and consumed <= popped <= produced <= producers x iterations |
| LockFree.AllConsumed | MyUtil/LockFreeMain.cpp:50-62 | once all threads have returned, the stack is empty, both counts are producers x iterations, and each value 1..N was popped exactly once, if and only if there is a consumer or nothing to produce |
| LockFree.ReturnMeansAllProduced | MyUtil/LockFreeMain.cpp:29-39 | a single consumer returning shows that all producers have finished and the stack is empty |
| LockFree.PrintedCounts | MyUtil/LockFreeMain.cpp:58-65 | the two numbers that main prints are both the planned total |
| LockFree.PopTakesPushed | MyUtil/LockFreeMain.cpp:22-38 | a pop right after a push takes the value pushed |
| LockFree.CanExit | MyUtil/LockFreeMain.cpp:18-62 | from every point of every interleaving the program can go on to its end |
| LockFree.SomeRunCompletes | MyUtil/LockFreeMain.cpp:41-65 | for all numbers of iterations, producers and consumers an interleaving exists that ends with all threads joined, and with a consumer it prints the planned total twice |
| Echo.StepKeepsInv | MyChat/MyTCPSrv01.cpp:98-235 | every handler keeps the echo and wait invariants, and no handler runs on a closed connection |
| Echo.EchoesInOrder | MyChat/MyTCPSrv01.cpp:104-129 | in every state of every run, bytes sent followed by the unsent view are the bytes received |
| Echo.ReadsFindNothingUnsent | MyChat/MyTCPSrv01.cpp:104-111 | whenever the buffer is read into, nothing in it is unsent |
| Echo.OneWaitOutstanding | MyChat/MyTCPSrv01.cpp:174-235 | an open, started connection has exactly one wait outstanding, of the kind wanted and matching both flags; a closed one has none and nothing ever happens to it again |
| Echo.OpenIff | MyChat/MyTCPSrv01.cpp:197-235 | a connection is open if and only if no handler so far met an error other than would-block |
| Echo.SentIsRead | MyChat/MyTCPSrv01.cpp:104-129 | what was sent is the bytes taken out by the reads, in order, as many as the writes have moved |
| Echo.WritesFinish | MyChat/MyTCPSrv01.cpp:121-129 | from every point of every run of an open connection, however the unsent bytes are split into writes, these can follow and everything received has then been sent |
| Echo.EchoesNextRead | MyChat/MyTCPSrv01.cpp:104-129 | any reading of up to 128 bytes can follow, and can be echoed in any split |
| Echo.Session.Read | MyChat/MyTCPSrv01.cpp:104-111 | the bytes go to the front of the buffer and the view shows exactly them |
| Echo.Session.Write | MyChat/MyTCPSrv01.cpp:121-129 | the view advances over what was taken, and the session wants to write as long as something is left |
| Echo.Connection.StartOperations | MyChat/MyTCPSrv01.cpp:174-195 | starts exactly the waits wanted and not outstanding |
| Echo.Connection.HandleRead | MyChat/MyTCPSrv01.cpp:197-215 | the handler performs exactly the machine's step, with the unsent bytes a view into the buffer |
| Echo.Connection.HandleWrite | MyChat/MyTCPSrv01.cpp:217-235 | the handler performs exactly the machine's step, with the unsent bytes a view into the buffer |
| InsertionSort.PlacedIsSort | MyUtil/MySort.c:22-33 | insertion sort yields a sorted rearrangement, for every comparator |
| InsertionSort.PlacedIsStable | MyUtil/MySort.c:22-33 | the members of every class of equal keys keep their order |
| InsertionSort.Insert | MyUtil/MySort.c:24-32 | the shifting loop moves the key behind the last element that does not come after it |
| InsertionSort.Issort | MyUtil/MySort.c:10-39 | in place: returns -1 and changes nothing without memory; otherwise returns 0 with the first `size` elements stably sorted and the others untouched |
| Partition.LoopSplits | MyUtil/MySort.c:73-84 | in either reading both scans stay in the range, only the range is rearranged, and everything right of the result is at least the pivot; as meant, everything up to it is at most the pivot |
| Partition.LastIndexIff | MyUtil/MySort.c:73-89 | the last index is returned if and only if the pivot's only equal sits there and the left scan goes on past everything before it; then nothing was moved |
| Partition.CountsDecide | MyUtil/MySort.c:73-84 | as written, from any round on the loop ends left of the first element above the pivot if and only if enough equals are left before it |
| Partition.AsWrittenSplitsIff | MyUtil/MySort.c:73-89 | the exact condition, checkable before the call, under which the scan as written splits the range |
| QuickSort.PivotIndexInRange | MyUtil/MySort.c:63-68 | the median of the three candidates lies in the range, also when the sort of the candidates fails |
| QuickSort.PivotIsMedian | MyUtil/MySort.c:44-68 | the pivot is taken at the median of the three random positions, and at the second of them when the sort of the three fails |
| QuickSort.PartedSplits | MyUtil/MySort.c:50-90 | the claims of `Partition.LoopSplits` for every choice of pivot |
| QuickSort.PartitionRange | MyUtil/MySort.c:50-90 | the in-place method computes exactly the specified partition, or returns -1 with nothing changed |
| QuickSort.QksortRange | MyUtil/MySort.c:92-106 | the in-place method, with its loop and recursion, computes exactly the specified quicksort |
| QuickSort.QksortRearranges | MyUtil/MySort.c:92-106 | however it ends, and while it runs, only the range is rearranged |
| QuickSort.ReturnsIff | MyUtil/MySort.c:92-106 | in either reading a run has returned 0 if and only if k - i of its calls of partition returned an index other than the last of their range, and it never makes more such calls |
| QuickSort.FailsForWantOfMemory | MyUtil/MySort.c:92-106 | it returns -1 only for want of memory, and takes its choices one after the other |
| QuickSortAsWritten.AsWrittenSortsIff | MyUtil/MySort.c:73-106 | as written, every run that returns 0 has sorted its range if and only if no element of the range has two strictly smaller ones behind it |
| QuickSortAsWritten.LoopKeepsNoTwo | MyUtil/MySort.c:73-84 | the loop as written keeps that condition, and ends at an element at most the pivot |
| QuickSortAsWritten.CanUnsort | MyUtil/MySort.c:73-106 | from an element with two strictly smaller ones behind it there are choices with which qksort returns 0 and leaves the range unsorted |
| QuickSortAsWritten.AsWrittenRunsOnIff | MyUtil/MySort.c:73-106 | as written, there are runs of any number of calls that have not returned, none failing, if and only if the range holds two elements that differ |
| QuickSortAsWritten.EqualsEnd | MyUtil/MySort.c:73-106 | on a range of equals qksort as written returns 0 after at most k - i calls, whatever is chosen |
| QuickSort.QksortSorts | MyUtil/MySort.c:92-106 | as meant, whenever it returns 0 the range is sorted, a rearrangement, and everything else unchanged, for all choices and comparators |
| QuickSort.QksortEnds | MyUtil/MySort.c:92-106 | in either reading, with choices that avoid the last element it returns 0 after at most k - i calls of partition |
| QuickSort.FirstAvoidsLast | MyUtil/MySort.c:63-68 | there are such choices: three zeros from rand() take the first element of every range |
| QuickSort.QksortStuck | MyUtil/MySort.c:92-106 | with the last element chosen every time and the left scan going on past the others it never returns |
| QuickSortAsWritten.AsWrittenDoesNotSort | MyUtil/MySort.c:73-106 | a concrete run as written that returns 0 with the range unsorted |
| HeapSpec.InsertIsHeap | Project1/MyTestMain01.cpp:194-205 | insert keeps heap order and adds exactly the element |
| HeapSpec.DeleteMaxIsHeap | Project1/MyTestMain01.cpp:207-216 | deleteMax keeps heap order and takes out exactly the root |
| HeapSpec.RootIsMaximum | Project1/MyTestMain01.cpp:207-211 | what deleteMax returns is the maximum |
| HeapSpec.PercolateDownOrders | Project1/MyTestMain01.cpp:157-174 | sifting down repairs heap order everywhere |
| HeapSpec.RunRefinesBag | Project1/MyTestMain01.cpp:194-227 | over any sequence of insert, deleteMax and buildHeap the heap returns what a bag with take-the-maximum returns, and holds the same elements |
| HeapSpec.BagRunUnique | Project1/MyTestMain01.cpp:194-227 | those return values and contents are determined by the operations alone |
| HeapSpec.DrainAllSorts | Project1/MyTestMain01.cpp:229-236 | repeated deleteMax is a descending sort of the contents |
| HeapSpec.DrainPrints | Project1/MyTestMain01.cpp:229-236 | the print loop prints the elements above -1 in descending order and stops at a stored -1: it prints everything if and only if -1 is not stored |
| HeapObject.Heap.Insert | Project1/MyTestMain01.cpp:194-205 | in place, through any resize, exactly the specified insert: heap order is kept and the contents grow by the element; the source runs past its array if and only if the capacity is 0 |
| HeapObject.Heap.Resize | Project1/MyTestMain01.cpp:176-192 | the capacity doubles, also from 0, and the elements stay |
| HeapObject.Heap.DeleteMax | Project1/MyTestMain01.cpp:207-216 | in place: -1 and nothing changed when empty; otherwise the maximum is returned and taken out, and heap order is kept |
| HeapObject.Heap.PercolateDown | Project1/MyTestMain01.cpp:157-174 | in place, exactly the specified sift, and nothing for an index out of range |
| HeapObject.Heap.BuildHeap | Project1/MyTestMain01.cpp:218-227 | inserts all, in order; heap order is kept and the contents grow by exactly these; it runs past the array if and only if the capacity is 0 and there is something to insert |
| HeapObject.Heap.Perform | Project1/MyTestMain01.cpp:194-227 | one heap object put through any sequence of operations and resizes returns what the specified run returns, and so what the bag returns |
| HeapObject.Heap.Print | Project1/MyTestMain01.cpp:229-236 | prints the size and the specified drain of a copy, and leaves the heap itself unchanged |
| LinkedList.List.InsNext | Project1/MyList.c:39-65 | insertion at a position of the sequence, at the head, middle or tail; the list stays an acyclic chain of `size` nodes ending at `tail`; -1 and no change without memory |
| LinkedList.List.RemNext | Project1/MyList.c:68-101 | removal at a position of the sequence, handing back its payload; -1 and no change when there is nothing to remove |
| LinkedList.List.Destroy | Project1/MyList.c:20-36 | terminates, destroys every remaining payload exactly once in order, and leaves the list empty |
| LinkedList.Enqueue | Project1/MyQueue.c:6-8 | appends at the tail |
| LinkedList.Dequeue | Project1/MyQueue.c:10-12 | takes the oldest, or fails on an empty queue |
| LinkedList.Push | Project1/MyStack.c:6-8 | puts on top |
| LinkedList.Pop | Project1/MyStack.c:10-12 | takes the top, or fails on an empty stack |
| LinkedList.QueueIsFifo | Project1/MyQueue.c:6-12 | over any interleaving of calls, what was taken followed by what is queued is what was there followed by what was added |
| LinkedList.QueueOneMore | Project1/MyQueue.c:6-12 | after any calls the next one adds at the end, or takes the oldest payload left if there is one |
| LinkedList.QueuePerform | Project1/MyQueue.c:6-12 | a linked-list queue put through any calls does exactly that |
| LinkedList.StackIsLifo | Project1/MyStack.c:6-12 | after any balanced calls a pop takes what was pushed before them and restores the stack |
| LinkedList.StackPerform | Project1/MyStack.c:6-12 | a linked-list stack put through any calls behaves as the stack of that claim |
| Events.ReceiveEvent | Project1/MyEvents.c:8-21 | queues a copy of the event, or returns -1 with the queue unchanged when either malloc fails |
| Events.ProcessEvent | Project1/MyEvents.c:24-39 | dispatches the oldest event exactly once, or returns -1 on an empty queue |
| Events.Perform | Project1/MyEvents.c:8-39 | over any interleaving of the two calls on one list, events dispatched followed by events queued are those queued before followed by those received successfully, in order |
| CircularQueue.CirQue.Insert | MyUtil/MyCircleQueue.c:40-50 | appends across the wrap, keeping rear = (front + count) mod capacity; refused with nothing changed when full |
| CircularQueue.CirQue.Remove | MyUtil/MyCircleQueue.c:52-62 | takes the oldest across the wrap; refused with nothing changed when empty |
| CircularQueue.RunIsBoundedFifo | MyUtil/MyCircleQueue.c:40-62 | over any run the bound holds and removals return accepted inserts in order |
| CircularQueue.RunOneMore | MyUtil/MyCircleQueue.c:40-62 | after any run an insertion is accepted if and only if there is room, and a removal takes the oldest element if there is one |
| CircularQueue.Perform | MyUtil/MyCircleQueue.c:40-62 | a ring put through any run of calls behaves as that bounded queue |
| StringSep.Strsep | MyUtil/MyString.c:7-21 | hands back the old pointer, ends the field at the first delimiter by overwriting it alone, and moves past it; NULL once the text is used up |
| StringSep.SplitMeaning | MyUtil/MyString.c:7-21 | there is one field more than there are delimiters, no field holds one, and putting them back rebuilds the text |
| StringSep.SplitInPlace | MyUtil/MyString.c:7-21 | calling it until NULL ends; the pointers show exactly those fields, still so at the end, and only delimiters of the text were overwritten |

## Left out

- Sockets, acceptors, resolvers, object lifetimes and the internals of asio: represented only by the events that complete an operation or make it fail. Several servers in one process are several independent rooms.
- Fairness: spin loops, the network and the scheduler promise nothing, so that a run does go on to its end is not claimed; that it can is.
- The threads of the producer/consumer program are program counters of a state machine, not loops over shared objects, because their interleaving is the point.
- Quicksort's choices are a finite tape, so a run that never returns appears as runs of every length that have not returned; which ranges allow it is characterised for the scan as written. Storage is a typed array, so `esize` and `memcpy` are not modelled, and a NULL buffer is not.
- HeapObject.Heap.Insert: stops where the source would write past its array, with capacity 0; what the write does is not modelled. The exception for a negative capacity, the unused `heapType`, moves and assignment are not modelled, and `buildHeap` takes the elements of its array by value.
- HeapObject.Heap.Perform: starts from a capacity of at least 1, because with capacity 0 the first insertion already leaves the array.
- LinkedList.List.RemNext: asks for an element of the list, or NULL, as the source does; setting the removed node's data to NULL just before it is freed is not modelled.
- The event that is lost when queueing it fails is not followed further, because the source keeps no pointer to it.
- Printing functions, menus, dispose functions and allocation failure beyond the return code.
- The remaining programs of the repository: network plumbing, logging, console user interfaces, clocks and demonstrations, which would add only easy members.
