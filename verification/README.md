# Verified models of the servers and queues of ko-scripts

This project models the concurrent queues, the echo servers, the prime service and the
length-prefixed messages of the repository in Dafny and proves what they are for. `dafny
verify dfyconfig.toml` checks everything.

| file | models |
|---|---|
| `Counting.dfy`, `Options.dfy`, `Bytes.dfy` | sums over threads, an option type, the byte type |
| `Fifo.dfy` | the atomic bounded queue that both queue programs refine |
| `Rings.dfy` | the ring buffer of both queue programs, as a value and as two classes over an array |
| `Semaphores.dfy` | the threads of `src/concurrency/semaphore.c`, interleaved |
| `Monitors.dfy` | the threads of `src/concurrency/MPMC.c`, interleaved, with wrapped indices and as written |
| `Framing.dfy` | the `^...$` echo protocol as a stream function |
| `SequentialServer.dfy` | `handle_connection` of the sequential and the thread server |
| `Peers.dfy` | the connection state and the handlers of the epoll and select servers |
| `Connections.dfy` | all connections of an event-driven server, any interleaving |
| `EventServers.dfy` | the select pass and the epoll batch over the table of connections |
| `UvEcho.dfy` | the callbacks of `src/servers/uv_server.c` |
| `Primes.dfy`, `PrimeServer.dfy` | `isprime` with 64-bit wrap-around, and request to reply |
| `WrappingPrime.dfy` | a prime for which the products of `isprime` wrap |
| `LengthPrefix.dfy` | varint-prefixed messages of `protobuf/tcp` |

## How the programs are modelled

Threads are program counters plus locals; a run is any sequence of enabled steps, one
source statement that touches shared data at a time. `pthread_cond_wait` releases the
mutex and sleeps in one step, `pthread_cond_signal` wakes one sleeper of the condition,
any one, and spurious wakeups are steps of their own. The number of threads, of rounds and
the ring size are parameters; the source has 1 consumer of 8 rounds, 1 producer and size 5
in `semaphore.c`, and 2 producers of 25 rounds, 4 consumers and size 5 in `MPMC.c`.

Event-driven servers are a step system over the table of connection states, the
registered interests and, per connection, the history of what was read and sent. `recv`
returns 1 to 1024 of the unread bytes, EAGAIN, or the end of the input; `send` accepts at
least one of the offered bytes, or EAGAIN; `accept` returns a descriptor that is not in use
at that moment, possibly one that the same pass or batch has closed. Runs of the main loops
chain (`Connections.RunsChain`). The classes `Peers.Peer`, `EventServers.EventServer` and
`UvEcho.UvPeer` update the same states in place; their contracts equate the new state with
the functions of the step systems (the last two through a ghost state of the step system),
so that what is proved about every run holds of them. What system calls return is a
parameter.

## What the proofs show about the source

- `semaphore.c`: all maximal runs have the same length, 10 steps per consumer round and 5
  per free slot (100 with the constants of the source), and the same end state.
- `MPMC.c` does not wrap `head` and `tail` (lines 59 and 66) while `is_full` (line 47)
  assumes it. `Monitors` has both programs. With wrapped indices, as `semaphore.c` writes
  them, the queue is safe, free of lost wakeups and terminates. As written it is the same
  program step by step until an add finds `tail` at the end of the array; that happens in
  every run that cannot go on if there are more than `size` tasks in all and a consumer,
  and never otherwise. With the constants of the source (50 tasks, size 5) it happens.
- `isprime` is exact for every 64-bit number but 1, which it reports prime. Its products
  wrap for exactly the odd numbers that are primes from (2^32 - 1)^2 on, and there are such
  primes: 2^64 - 2^32 + 1 is one. The answer is still right: 1852311383259529397^2 is 7
  below a multiple of 2^64, so the loop ends with no divisor met, well before `r` could
  reach `n`.
- Both event-driven servers refuse descriptors beyond the table only partly: epoll checks
  `newsockfd > MAXFDS` (line 239), select checks `FD_SETSIZE`, which is 1024 on Linux,
  against a table of 1000. The assertion in `on_peer_connected` catches the rest. The model
  stops in all these cases.
- `uv_server.c` answers a read in one piece or fails an assertion: it fails exactly if the
  reply to one read is longer than 1024 bytes, which a single read of `^` and 1025 more
  bytes brings about.
- The client and server of `protobuf/tcp` loop for ever if the peer closes the stream inside
  a length; the model calls this outcome `Stalled`.

## Model

| member | source | states |
|---|---|---|
| Rings.TestsAreExact | src/concurrency/semaphore.c:43-55 | the index comparisons mean full and empty, with one slot kept free |
| Rings.AddAppends | src/concurrency/semaphore.c:57-65 | an add stays inside the array, is refused only when full, and appends |
| Rings.PopTakesOldest | src/concurrency/semaphore.c:67-75 | a pop stays inside the array, is refused only when empty, and takes the oldest item |
| Rings.Buffer.AddItem | src/concurrency/semaphore.c:57-65 | in place: contents grow by the item, or nothing changes when full |
| Rings.Buffer.PopItem | src/concurrency/semaphore.c:67-75 | in place: the oldest item leaves, or nothing changes when empty |
| Rings.GrowingMatchesWrapped | src/concurrency/MPMC.c:46-54 | unwrapped indices give the same tests and contents as wrapped ones up to the first overrun |
| Rings.GrowingAdd | src/concurrency/MPMC.c:56-61 | an add matches the wrapped one, stored or refused, except exactly when `tail` is at the end and the queue not full |
| Rings.GrowingPop | src/concurrency/MPMC.c:63-68 | a pop matches the wrapped one and never reads outside the array |
| Rings.TaskQueue.AddItem | src/concurrency/MPMC.c:56-61 | in place: 0 and the task appended, or -1 and nothing changed, or stopped before a write outside the array |
| Rings.TaskQueue.PopItem | src/concurrency/MPMC.c:63-68 | in place: 0 and the oldest task taken, or -1 and nothing changed |
| Fifo.Conservation | src/concurrency/semaphore.c:57-75 | what was taken followed by what is queued is what was put in, in order |
| Semaphores.EveryRunIsSafe | src/concurrency/semaphore.c:90-118 | in every reachable state the semaphores count items and free slots with those in flight, the ring is an atomic bounded queue, and no add or pop returns false |
| Semaphores.EveryNumberDrawnIsAdded | src/concurrency/semaphore.c:105-118 | in every run, what a producer has added is what rand() returned to it, in order, without the number it still has in hand |
| Semaphores.EveryPopTakesTheOldest | src/concurrency/semaphore.c:90-102 | in every run, what a consumer has taken are the items that were the oldest when it popped |
| Semaphores.ConsumerPops | src/concurrency/semaphore.c:95-98 | a consumer at pop_item always gets an item |
| Semaphores.ProducerAdds | src/concurrency/semaphore.c:112-114 | a producer at add_item always finds room |
| Semaphores.StepTakesOne | src/concurrency/semaphore.c:90-118 | every step keeps the invariant and uses up exactly one of the remaining steps |
| Semaphores.StuckMeansFinished | src/concurrency/semaphore.c:90-118 | no deadlock: without a next step all consumers are done, all producers wait for a slot and the ring is full |
| Semaphores.EveryMaximalRun | src/concurrency/semaphore.c:120-140 | with at least one producer, a run cannot go on iff it has 10 steps per consumer round and 5 per free slot; its end state is exact |
| Monitors.StepKeepsInv | src/concurrency/MPMC.c:70-113 | every step, spurious wakeups included, keeps mutual exclusion, absence of lost wakeups, queue order and per-producer order |
| Monitors.EveryRunIsSafe | src/concurrency/MPMC.c:70-113 | in every reachable state, while a consumer sleeps every queued item has a consumer on its way or a signal owed, likewise producers and slots; the queue is an atomic bounded queue |
| Monitors.EveryRunIsBounded | src/concurrency/MPMC.c:70-113 | every run is finite: 14 steps per task, 2 per thread, 3 per spurious wakeup |
| Monitors.StuckMeansFinished | src/concurrency/MPMC.c:80-109 | with at least one consumer, no deadlock while work remains: without a next step all tasks are added and taken |
| Monitors.PerProducerOrder | src/concurrency/MPMC.c:74-93 | what consumers take from one producer is a start of s, s+1, s+2, ... |
| Monitors.EveryPopTakesTheOldest | src/concurrency/MPMC.c:97-113 | in every run, what a consumer has taken are the tasks that were the oldest when it popped |
| Monitors.EveryMaximalRun | src/concurrency/MPMC.c:76-110 | with at least one consumer, a run that cannot go on has all producers done, all tasks taken, and each producer's whole sequence in order |
| Monitors.StepMatchesWrapped | src/concurrency/MPMC.c:56-68 | a step with unwrapped indices is the wrapped step, or the write past the end |
| Monitors.AsWrittenSafeIfSmall | src/concurrency/MPMC.c:56-93 | as written, no run with at most `size` tasks leaves the array, and it is a run of the wrapped program |
| Monitors.AsWrittenIsBounded | src/concurrency/MPMC.c:70-113 | as written, every run is finite within the same bound, overrun or not |
| Monitors.WithoutConsumersSafe | src/concurrency/MPMC.c:46-61 | as written and without a consumer, no run leaves the array |
| Monitors.AsWrittenOverrunsIff | src/concurrency/MPMC.c:56-113 | as written, a run that cannot go on has left the array iff there are more than `size` tasks and a consumer |
| Monitors.SourceConstantsOverrun | src/concurrency/MPMC.c:115-129 | with 2 producers, 25 rounds and size 5 a run does leave the array |
| Framing.Chunks | src/servers/sequential_server.c:45-72 | the automaton's state and answers do not depend on how the input is cut |
| Framing.AutomatonMeaning | src/servers/sequential_server.c:45-72 | the switch computes: drop to the next `^`, take to the next `$`, add one, repeat |
| Framing.RoundTrip | src/servers/sequential_server.c:45-72 | framing messages, echoing and subtracting one gives the messages back |
| SequentialServer.AnswerByte | src/servers/sequential_server.c:47-71 | one byte changes state and output as the automaton says, or its send fails |
| SequentialServer.FlattenIsConcatenation | src/servers/sequential_server.c:31-43 | the input of a connection is the concatenation of what its recv calls return |
| SequentialServer.HandleConnection | src/servers/sequential_server.c:18-75 | the connection sends exactly the stream function of all input, or stops early, exactly when sends run out, with as many bytes of it sent as sends could succeed |
| Peers.FeedAppendsReply | src/servers/epoll_server.c:86-113 | received bytes append their reply to what is pending; an assertion fails iff the reply does not fit |
| Peers.Peer.OnPeerConnected | src/servers/epoll_server.c:43-54 | in place: the greeting is pending and nothing else, whatever the slot held |
| Peers.Peer.OnPeerReadyRecv | src/servers/epoll_server.c:56-116 | in place: the handler function, status and assertion failure included, and, without it, that the reply becomes what is pending |
| Peers.Peer.OnPeerReadySend | src/servers/epoll_server.c:118-157 | in place: partial, blocked and complete sends |
| Connections.DataKeepsInv | src/servers/epoll_server.c:86-115 | a read keeps sent ++ pending == stream(received) and the interest invariant, with no assertion failing |
| Connections.SendKeepsInv | src/servers/epoll_server.c:118-157 | a send of any length keeps them too |
| Connections.StepKeepsInv | src/servers/epoll_server.c:207-332 | an event keeps the invariant of all connections and changes nothing of the others; accept starts a fresh history |
| Connections.EveryRunRefinesStream | src/servers/epoll_server.c:56-157 | for every interleaving, chunking and partial send, sent ++ pending is the stream function of the bytes read, and a connection waits for write iff bytes are pending, else for read |
| Connections.EveryCloseIsClean | src/servers/epoll_server.c:60-72 | at close exactly what the sequential server sends was sent, in at most 2*input+2 calls without EAGAIN |
| Connections.ClosesOnlyAtEof | src/servers/epoll_server.c:68-71 | only the end of the input closes a connection, and its history is kept |
| Connections.GoneMeansEof | src/servers/epoll_server.c:60-72 | a connection that was open before a run and is gone after it has met the end of its input in the run |
| Connections.HistoriesAreFaithful | src/servers/epoll_server.c:56-157 | the recorded reads, sends and calls are those of the events since the last accept |
| Connections.OpenMeansUnfinished | src/servers/epoll_server.c:122-156 | an open connection can always make progress and has not used up its calls |
| EventServers.ScheduleIsExact | src/servers/select_server.c:182-260 | a pass dispatches every ready bit once, in the order of the descriptors, and nothing else |
| EventServers.ReusedLiesBehind | src/servers/select_server.c:182-208 | if accept returns any unused descriptor, and that one was open when select was called, it lies behind the scan, which has read its end of input; no ready bit from the listener on belongs to it |
| EventServers.BatchIsExact | src/servers/epoll_server.c:209-332 | a batch dispatches what each entry asks for once, in their order, `EPOLLOUT` only without `EPOLLIN`, and nothing else |
| EventServers.ReusedHasHadItsEntry | src/servers/epoll_server.c:209-257 | likewise for a batch: its entry came before the listener's, with the end of its input, and no later entry does anything to it |
| EventServers.EventServer.SelectPass | src/servers/select_server.c:172-260 | in place: the scan with its countdown and early exit performs exactly the ready set's events, each possible when its turn comes, although `fdset_max` grows and accept may return a descriptor closed in the same pass |
| EventServers.EventServer.EpollBatch | src/servers/epoll_server.c:207-332 | in place: a batch performs its events in order, each possible when its turn comes, although accept may return a descriptor closed in the same batch |
| EventServers.EventServer.ScanDescriptor | src/servers/select_server.c:183-259 | in place: one descriptor of the scan; bits ahead stay those of unchanged connections, also after an accept that reuses a descriptor closed in the same pass |
| UvEcho.OrderedCallbacksEcho | src/servers/uv_server.c:68-175 | as long as no assertion has failed, completed writes and the one in flight are the stream function of the bytes of all reads; the loop stops exactly at the first echo ending in XYZ; no read happens before the greeting is written |
| UvEcho.EveryReadCounts | src/servers/uv_server.c:112-137 | in any ordered run without a failed assertion, what was taken in is the concatenation of what the read callbacks were given |
| UvEcho.FailsIffReplyTooLong | src/servers/uv_server.c:112-137 | an assertion fails exactly at a read whose reply exceeds the buffer |
| UvEcho.LongFrameFails | src/servers/uv_server.c:112-137 | whatever the buffer held, some ordered run does fail the assertion |
| UvEcho.UvPeer.OnPeerRead | src/servers/uv_server.c:89-154 | in place: the step of the callback system, what is handed to uv_write, and whether an assertion failed |
| UvEcho.UvPeer.PeerEnd | src/servers/uv_server.c:48-66 | 1 if the last three bytes in the buffer are XYZ, else 0 |
| UvEcho.UvPeer.OnWroteBuf | src/servers/uv_server.c:68-87 | in place: the step of the callback system; stops on XYZ |
| Primes.SmallDivisor | src/servers/uv_prime_server.c:52-53 | an odd composite has an odd divisor up to its square root |
| Primes.IsPrime | src/servers/uv_prime_server.c:54-65 | terminates, and true iff prime or 1, for every 64-bit number with wrapping products |
| Primes.WrapsIff | src/servers/uv_prime_server.c:59 | a product wraps iff n is a prime from (2^32-1)^2 on |
| WrappingPrime.SomeGuardWraps | src/servers/uv_prime_server.c:59 | 2^64 - 2^32 + 1 is a prime for which the guard evaluates a product that wraps |
| PrimeServer.PrintThenParse | src/servers/uv_prime_server.c:123-131 | printing a number, with any zeros in front, and parsing the request gives it back modulo 2^64 |
| PrimeServer.NoLeadingDigit | src/servers/uv_prime_server.c:123-131 | a request without a leading digit asks for 0 |
| PrimeServer.OneMoreDigit | src/servers/uv_prime_server.c:126-127 | one more digit means ten times as much plus the digit, modulo 2^64; with the row before, this fixes the number of every request |
| PrimeServer.Peer.ParseNumber | src/servers/uv_prime_server.c:123-131 | the value of the leading digits modulo 2^64 |
| PrimeServer.Peer.SetPeerSendbuf | src/servers/uv_prime_server.c:27-34 | in place: the reply is the given text |
| PrimeServer.Peer.OnPeerRead | src/servers/uv_prime_server.c:105-173 | the branches on nread, and the verdict on the requested number |
| PrimeServer.AskTheServer | src/servers/uv_prime_server.c:75-161 | end to end, a request for any number is answered `prime` iff the number modulo 2^64 is prime or 1 |
| LengthPrefix.RoundTrip | protobuf/utils.py:5-14 | decoding an encoded 64-bit number, whatever follows it, gives the number and its length |
| LengthPrefix.DecodeMeaning | protobuf/utils.py:12-14 | a varint ends at the first byte below 128; its value is that of seven bits a byte, least significant first, modulo 2^64; without such a byte it is incomplete, or too long from ten bytes on |
| LengthPrefix.EncodeMeaning | protobuf/utils.py:5-9 | an encoding is the shortest varint with the value of its number |
| LengthPrefix.ProperPrefixIsTruncated | protobuf/tcp/proto_tcpcli.py:34-41 | every proper prefix of a length is rejected as incomplete |
| LengthPrefix.Connection.ReadSize | protobuf/tcp/proto_tcpcli.py:34-41 | the one-byte retry loop equals one decode of the whole stream and reads no further |
| LengthPrefix.Connection.RecvMessage | protobuf/tcp/proto_tcpcli.py:32-47 | every stream: the message is what one recv of the decoded size gives and the rest stays unread, or there is no message exactly when no size can be decoded; a framed message is whole iff its body arrives in that recv |
| LengthPrefix.RecvAll | protobuf/tcp/proto_tcpser.py:27-38 | back-to-back frames come out one by one |

## Left out

- Printing, argument parsing, socket setup, `fcntl`, failing system calls other than EAGAIN and the sends of `handle_connection`, and every `exit(1)` they lead to.
- `main` of `semaphore.c` frees the ring when the consumer is done, and `main` of `MPMC.c` joins threads that never end; only the thread bodies are modelled.
- `executeTask` and `child`: easy members. `executeTask` also declares its array one slot short.
- What follows a write outside the task array of `MPMC.c`: nothing is known after it, so the model stops there.
- Memory-model effects: every step on shared data is atomic, which the mutexes and semaphores of the source provide.
- EventServers.EventServer.EpollBatch: has no `EPOLLERR` and `EPOLLHUP` bits, because the first only makes the source print and the second is not looked at; an entry without `EPOLLIN` and `EPOLLOUT` does nothing, as in the source.
- Reads of `uv_server.c` that come before the previous write has completed: they share its one send buffer, and what is sent then depends on libuv.
- A second request of the same client of `uv_prime_server.c` before the first has been answered through the work queue.
- The end of a client of `uv_server.c`, which only closes its handle, and reads of no bytes, which do nothing.
- A size that decodes to more than `recv` accepts as an argument.
- libuv's scheduler and thread pool, `malloc` and `free`.
- The varint functions of the protobuf library are not part of the repository; they are modelled by their published format. Message bodies are opaque bytes; `Rect` is not modelled.
- `src/datastruct/hash.c`, `src/tools`, `protobuf/zmq`, the Python test clients and `common/utils.c`: I/O and library calls.
