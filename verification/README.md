# A model of the segmented receive buffer

The server keeps what it receives from each connection in a chain of
fixed-capacity buffers (mbufs) with a read and a write cursor. All connections
of a context draw their mbufs, their con_info records and themselves from free
lists that the context counts and caps. The chains and lists are intrusive BSD
tail queues, whose backward links are addresses of pointer cells. On top of the
byte stream lies a framing of a 4-byte big-endian length and a payload.

This project models those layers as imperative Dafny and proves that each
connection behaves as one FIFO byte sequence of its own, for every interleaving
of calls over any number of connections, and that every buffer is in exactly one
place and is counted there.

## How the layers build on each other

- `Sequences`, `Ledgers`, `Sums`: sequence edits; the life of recycled objects
  (allocated, in use, free, released once); sums over maps.
- `TailQueue`, `SimpleQueue`: the TAILQ and STAILQ macros over cells, each proved
  to perform one sequence edit.
- `Segments`: the chain as a value. A connection's `History` is the bytes ever
  written, the number of bytes read, and the *drift*, the amount by which the
  unread bytes exceed `data_size`. `Layout` is the one chain that a history can
  leave, whatever the calls were that led to it.
- `Mbufs`: the cursors and the capped pool. `Lent` and `Repaid` say which mbufs a
  chain draws from the free list and which it gives back, in which order, and
  which go to the allocator. `ByteQueues`: one chain of mbufs in memory, with the
  three loops of the buffer; its invariant is that the chain in memory is the
  `Layout` of its history.
- `AsWritten`: what the read loop returns as its text stands.
- `Corvus`: the context, its connections and its operations. `Context.Valid` is
  kept by every operation; each keeps the histories of all other connections.
- `Accounting`: what a valid context has in memory. `Runs`: interleavings as
  values, and what follows for their answers. `Driver`: the same interleavings
  executed on a context, and whole sessions up to teardown.
- `Framing`: the server's handler, its receive loop, and the client's frame.

## Where the text departs from what it is for

The operations exist in an intended and, where they differ, in an as-written
form (`...AsWritten`, `...AsIs`). For each difference the exact condition is
proved under which the text does what is intended.

- `con_buf_write` returns at line 176 before `data_size` is raised at line 188
  when the last byte exactly fills an mbuf (`ConBufWriteAsWritten`,
  `UncountedExample`). After any run `data_size` lacks just those writes
  (`InMemoryAfterRun`).
- `con_buf_read` passes `len` instead of the remaining count at line 202. It
  returns min(len, `data_size`) exactly when that is zero, or the whole stream, or
  `len` is within the head mbuf and `data_size`, or the read ends on an mbuf
  boundary; otherwise it returns more, by `GreedyIs` often the whole stream, and
  `data_size` can fall below zero (`ReadAsWrittenIff`, `OverreadExample`,
  `BeyondSizeExample`).
- `con_buf_read` dereferences `info` without the NULL check of `con_buf_peek`. It
  faults exactly when nothing was written to the connection since it was created
  (`ConBufReadAsWritten`, `FaultIff`, `FaultExample`); the intended read returns 0.
- A `data_size` below zero, with bytes to read, makes even the intended read pass a
  negative length to memcpy (`ConBufRead`, `NegativeExample`). The intended
  operations alone never get there (`RunIsFifo`).
- `context_connection_new` hands a NULL pointer to TAILQ_REMOVE at line 107
  when a connection is cached; the intended one takes the first cached
  connection.
- `mbuf_destroy` leaves `total_buffers` as it was, and teardown `free_conn_info`
  (contracts of `Pool.Destroy` and `ContextFreeContent`).
- `ctx->conns` is zeroed and never initialised. That does no harm: a zeroed head
  becomes a valid queue with its first insertion (`Head.InsertHead`).
- Recycling a connection that is already cached shifts `conns` and `free_conns`
  by one. Over any run the shift is the number of such calls (`Execute`), and
  teardown goes ahead exactly when as many connections are live as there were
  such calls (`Session`, `EarlyTeardownExample`).
- The frame check sums in 32 bits and tests `data_size > 4`: a frame without
  payload is not announced when it is complete, and an incomplete frame is
  announced early exactly when five of its bytes are counted and its length field
  is within 4 of the end of the 32-bit range (`EarlyIff`, `EarlyExample`).
  With the write as it stands a frame is announced exactly when, besides, no
  chunk ends where an mbuf ends (`FrameNotes`, `SilentExample`).
- The server never reads, so every chunk after a whole frame announces that first
  frame again (`FrameAgain`, `FrameEachTime`).

## Model

| member | source | states |
|---|---|---|
| TailQueue.Head.Init | base/queue.h:346-349 | an initialised head is a valid empty queue |
| TailQueue.Head.InsertHead | base/queue.h:368-376 | the relinking keeps both link directions right and puts the element in front; it also turns a zeroed head into a valid queue |
| TailQueue.Head.InsertTail | base/queue.h:378-383 | storing through the tail cell appends the element, empty queue included |
| TailQueue.Head.InsertAfter | base/queue.h:351-359 | the element lands right behind the given member, which may be the last |
| TailQueue.Head.InsertBefore | base/queue.h:361-366 | without naming the head, the element lands right before the given member, which may be the first |
| TailQueue.Head.Remove | base/queue.h:393-400 | removing any member leaves exactly the others in order; the removed entry keeps stale links |
| TailQueue.Head.Last | base/queue.h:385-386 | rereading the tail cell as a head gives the last element, or NULL if there is none |
| TailQueue.Head.Prev | base/queue.h:390-391 | rereading an entry's back cell as a head gives the true predecessor, or NULL at the front |
| TailQueue.Head.ForEach | base/queue.h:336-339 | the forward walk ends and visits the queue in order |
| TailQueue.Head.ForEachReverse | base/queue.h:341-344 | the backward walk ends and visits exactly the reverse |
| SimpleQueue.Queue.Init | base/queue.h:194-197 | an initialised head is a valid empty queue |
| SimpleQueue.Queue.InsertTail | base/queue.h:211-215 | appends through the tail cell |
| SimpleQueue.Queue.RemoveHead | base/queue.h:235-239 | drops the first element, and resets the tail cell when it was the last |
| Mbufs.MbufWrite | base/mbuf.c:81-88 | appends as many bytes as fit to the written area, moves only the write cursor, and leaves the buffer behind them as it was |
| Mbufs.MbufPeek | base/mbuf.c:94-103 | copies the first unread bytes to the destination at its offset, index by index; every other byte of the destination stays, and no cursor moves |
| Mbufs.MbufRead | base/mbuf.c:89-93 | as peek, index by index, and moves the read cursor over what was copied |
| Mbufs.Pool.Create | base/mbuf.c:8-26 | hands out the head of the free list, or a new buffer only if the list is empty; the ledger and the counters follow |
| Mbufs.Pool.Get | base/mbuf.c:34-55 | the mbuf handed out was not in use, has empty cursors and the full capacity, and shares nothing with what stays in the pool |
| Mbufs.Pool.Recycle | base/mbuf.c:56-70 | keeps the mbuf in front of the free list up to 11 of them, else releases it once; counters stay exact |
| Mbufs.LentMeans | base/mbuf.c:8-55 | a chain that grows takes mbufs off the head of the free list in their order, and new ones only behind those, index by index |
| Mbufs.RepaidMeans | base/mbuf.c:56-70 | mbufs given back are on the free list, the latest in front, as far as 11 allows, and exactly the others are released, index by index |
| Mbufs.Pool.Destroy | base/mbuf.c:104-113 | the drain loop ends, releases each free mbuf once, and lowers free_buffers but not total_buffers, which is then too high by exactly their number |
| Segments.SplitUnique | base/corvus.c:163-187 | two chains of the same bytes in which all mbufs but the last are full are the same chain |
| Segments.ShapeIsLayout | base/corvus.c:136-219 | any chain of the right shape, bytes and head offset is the one its history lays out |
| Segments.LayoutShape | base/corvus.c:136-219 | in the chain of any history all mbufs but the tail are full, none is empty, the head is not both full and drained, and the unread bytes are the stream |
| Segments.ClosedForm | base/corvus.c:136-219 | with W bytes written and R read the chain has ceil(W/cap) - floor(R/cap) mbufs and head offset R mod cap |
| Segments.LayoutAt | base/corvus.c:136-219 | with R bytes read, byte number i of those written lies in mbuf i/cap - R/cap of the chain, at offset i mod cap |
| Segments.HeadDecides | base/mbuf.c:121-130 | the head mbuf has unread bytes exactly when the whole stream is nonempty |
| Segments.ClosedIff | base/corvus.c:153-153 | the tail has no room, or there is no tail, exactly when W divides by the capacity |
| Segments.PutInTail | base/corvus.c:166-171 | bytes that fit extend the open tail and nothing else |
| Segments.PutInNew | base/corvus.c:153-157 | behind a full tail, bytes start exactly one new mbuf |
| Segments.TakeFromHead | base/corvus.c:200-211 | reading from the head moves its offset, and drops it once it is full and drained |
| ByteQueues.ByteQueue.Grow | base/corvus.c:178-180 | one mbuf joins the chain as an empty tail: the head of the free list, or a new one only if the list is empty; list and counters follow, and pool and chain stay apart |
| ByteQueues.ByteQueue.WritableTail | base/corvus.c:149-161 | the write starts at a tail with room, the old one or one new mbuf |
| ByteQueues.ByteQueue.PutOnce | base/corvus.c:165-184 | one turn writes at least one byte and leaves the chain of the longer history, or that chain with an empty tail added |
| ByteQueues.ByteQueue.Put | base/corvus.c:149-187 | the write loop ends for every length and fill level, the chain becomes that of the history with all bytes appended, its new mbufs come off the head of the free list first, and it leaves by the early return exactly when the total is a multiple of the capacity |
| ByteQueues.ByteQueue.ReadableIff | base/mbuf.c:121-130 | the head-only test of memory is true exactly when the stream is nonempty |
| ByteQueues.ByteQueue.TakeOnce | base/corvus.c:200-211 | one turn copies the next stream bytes of the head and gives the head back, to the free list while that has fewer than 11, exactly when it is full and drained |
| ByteQueues.ByteQueue.Take | base/corvus.c:192-212 | the intended loop, for any data_size: it copies exactly the first min(len, data_size, stream) bytes, touches nothing behind them, leaves the chain of the shorter stream, and gives the drained mbufs back in their order; a negative length reaches memcpy exactly when data_size is negative and there is something to read, and then nothing has changed |
| ByteQueues.ByteQueue.TakeAsWritten | base/corvus.c:192-212 | the loop as it stands, for any data_size: what it returns, that the bytes are still in order, and that the chain stays the layout of the history |
| ByteQueues.ByteQueue.PeekOnce | base/corvus.c:226-234 | one turn copies the next stream bytes of one mbuf and goes on exactly when that mbuf is through and more is wanted |
| ByteQueues.ByteQueue.Peek | base/corvus.c:225-235 | copies the first min(len, stream) bytes across mbufs and changes no mbuf |
| ByteQueues.ByteQueue.Release | base/corvus.c:89-100 | every mbuf of the chain goes back, in its order: to the front of the free list while that has fewer than 11, and from then on to the allocator; the counters follow |
| AsWritten.ReturnsWhatWasAsked | base/corvus.c:190-219 | the as-written read in numbers, for every data_size that the stream covers: it returns min(len, data_size) exactly under the stated condition, else more |
| AsWritten.ReadAsWrittenIff | base/corvus.c:190-219 | the same of the chain: for every data_size up to the stream it returns min(len, data_size) if and only if that is zero, or the whole stream, or len lies within the head mbuf and data_size, or the read ends on an mbuf boundary; otherwise more |
| AsWritten.GreedyIs | base/corvus.c:190-219 | the count of the as-written read in closed form for every data_size that the stream covers: beyond the head it is one more piece of len below the capacity, else all that was asked or the whole stream |
| AsWritten.OverreadExample | base/corvus.c:202-202 | a concrete read that returns more than was asked |
| AsWritten.BeyondSizeExample | base/corvus.c:202-202 | with data_size 1 and five bytes there, a read of 3 within the head mbuf returns 3 |
| Corvus.Context.constructor | base/corvus.c:17-30 | a new context meets the invariant although its connection cache is only zeroed |
| Corvus.Context.ConInfoNew | base/corvus.c:64-83 | the con_info comes off the free list head or from the allocator, with an empty queue and nothing of an earlier life |
| Corvus.Context.GiveInfo | base/corvus.c:143-147 | a connection without con_info gets the first free one, or a new one only if none is free; the invariant, the pool and all histories are kept |
| Corvus.Context.StillSound | base/corvus.c:136-219 | whatever one chain and the pool exchange, the invariant over all connections, chains, free lists and counters survives |
| Corvus.Context.Append | base/corvus.c:149-187 | the write loop in its context: only this connection's history grows |
| Corvus.Context.ConBufWrite | base/corvus.c:136-189 | the intended write appends exactly the given bytes to this connection and raises data_size by their number; the k mbufs it needs come off the head of the free list first, total_buffers grows by those that do not, a first write takes the first free con_info, and every other history and the cache stay |
| Corvus.Context.ConBufWriteAsWritten | base/corvus.c:136-189 | the same bytes are appended and the same mbufs drawn; data_size is raised by their number if and only if there are none or the last one does not fill an mbuf, and else stays |
| Corvus.Context.ConBufRead | base/corvus.c:190-219 | the intended read, whatever data_size is: it returns min(len, data_size), puts the first stream bytes at the front of the destination and changes no other byte there, lowers data_size, and gives floor(R'/cap) - floor(R/cap) mbufs back, to the free list up to 11; it faults exactly when data_size is negative and there is something to read |
| Corvus.Context.ConBufReadAsWritten | base/corvus.c:190-219 | the read as it stands, for any live connection: it faults exactly when info is NULL, which is when nothing was ever written, with everything unchanged; else its count, when that is min(len, data_size), its bytes index by index, the mbufs it gives back and the history it leaves |
| Corvus.Context.ConBufPeek | base/corvus.c:220-238 | puts the bytes that a read of the same length would at the front of the destination, changes no other byte there, and nothing else |
| Corvus.Context.ContextConnectionNew | base/corvus.c:101-115 | the connection is the first cached one or a new one, and starts with an empty history |
| Corvus.Context.ContextConnectionNewAsWritten | base/corvus.c:104-107 | the text faults exactly when a connection is cached |
| Corvus.Context.ConnInit | base/corvus.c:84-88 | the fields and the stale links of a reused connection are cleared |
| Corvus.Context.LinksTell | base/corvus.c:127-127 | the link comparison is true exactly for cached connections |
| Corvus.Context.ConnectionBufFree | base/corvus.c:89-100 | every mbuf of the connection goes back to the pool in its order, up to 11 to the free list, and no other does |
| Corvus.Context.RecycleInfo | base/corvus.c:118-125 | the chain returns to the pool, the con_info to the end of its free list, and the connection leaves the live ones |
| Corvus.Context.Shelve | base/corvus.c:126-134 | the connection moves to the front of the cache, from outside or from within it |
| Corvus.Context.ContextConnRecycle | base/corvus.c:116-135 | only this connection's history disappears; its k mbufs go to the front of the free list, the latest in front, as far as 11 allows, and the others to the allocator, with the counters; its con_info goes to the end of its list, and it comes to the front of the cache; a second recycle of a cached connection is counted as such |
| Corvus.Context.ContextFreeContent | base/corvus.c:35-53 | refuses while connections count as in use; otherwise both drain loops end and release exactly the two free lists, each object once, and only free_buffers is lowered; with no live connection everything ever allocated has then been released once |
| Accounting.OnePlaceEach | base/mbuf.c:8-70 | each allocated mbuf is on the free list, or in a chain, or released once, and only one of these |
| Accounting.ChainsAreDisjoint | base/corvus.c:136-219 | no mbuf lies in the chains of two connections |
| Accounting.BufferCounters | base/mbuf.c:8-70 | total_buffers = buffers + free_buffers, buffers is the sum of the lengths of all chains in memory, free_buffers is the list length and at most 11 |
| Accounting.HoldingsInMemory | base/corvus.c:136-219 | the summands are the lengths of the chains in memory, in closed form |
| Accounting.ConnectionCounters | base/corvus.c:64-135 | the connection and con_info counters are the real populations if and only if no cached connection was recycled again; the shift is the number that Driver.Execute counts over a run |
| Accounting.ShapeInMemory | base/corvus.c:136-219 | the shape of the chain, mbuf by mbuf, with the head read up to R mod cap |
| Accounting.StreamInMemory | base/corvus.c:136-219 | the unread bytes of the mbufs in memory are the stream, and data_size counts them but for the drift |
| Accounting.ContentsInMemory | base/corvus.c:136-219 | mbuf by mbuf, written area and read cursor are those of the one chain that the history lays out |
| Accounting.PlaceInMemory | base/corvus.c:136-219 | with R bytes read, byte number i of those written lies in mbuf i/cap - R/cap of the connection, at offset i mod cap of its buffer |
| Accounting.SameInMemory | base/corvus.c:136-219 | two connections, on contexts of one capacity, that agree in bytes written and number read have the same mbufs: count, cursors and contents |
| Runs.Isolation | base/corvus.c:101-238 | in any interleaving a connection gets the answers and ends with the history that its own calls alone give |
| Runs.RunIsFifo | base/corvus.c:101-238 | the answers of any interleaving of the intended calls are those of one byte sequence per connection, and none is a fault |
| Runs.Conservation | base/corvus.c:136-219 | bytes read followed by bytes left are bytes there before followed by bytes written, in both forms of the code and past any fault |
| Runs.Birth | base/corvus.c:101-135 | a connection created in the middle of a run behaves as its own calls on an empty history |
| Runs.RunClosedForm | base/corvus.c:136-219 | after any run, with W bytes written to a live connection and R read from it, the chain has ceil(W/cap) - floor(R/cap) mbufs, head offset R mod cap, what was read followed by the stream is what was written, and data_size lacks the exactly filling as-written writes |
| Runs.UncountedExample | base/corvus.c:175-176 | a concrete write whose bytes a following read as it stands cannot get |
| Runs.FaultIff | base/corvus.c:194-198 | after any calls on a connection its as-written read faults if and only if nothing was written to it |
| Runs.FaultExample | base/corvus.c:194-198 | a connection read before its first byte has come: the text faults |
| Runs.NegativeExample | base/corvus.c:196-202 | a concrete run after which data_size is -2 and an intended read passes a negative length on |
| Driver.Call | base/corvus.c:101-238 | one call on the heap answers as the run says and keeps all other connections |
| Driver.Execute | base/corvus.c:101-238 | an interleaving executed on any valid context, whatever its free lists and other connections hold, gives the answers and the histories of the run and leaves the others alone; free_buffers and total_buffers end as the run alone says, the cache gets what the run recycled, latest first, and the connection counters shift by the number of repeated recycles |
| Driver.ExecuteBoth | base/corvus.c:101-238 | the same interleaving on two valid contexts that share nothing, of any capacities, free lists and other connections, gives the same answers |
| Driver.InMemoryAfterRun | base/corvus.c:136-219 | after a run executed on the heap, a live connection has a con_info exactly when something was written to it, the unread bytes in its mbufs are what was written past what was read, in as many mbufs as the closed form says, the first read up to R mod cap, and data_size is their number less the exactly filling as-written writes |
| Driver.WriteInPieces | base/corvus.c:136-189 | data written by any split into calls: the history and data_size are those of one write |
| Driver.ReadInPieces | base/corvus.c:190-219 | any split of a read: the bytes delivered and the history are those of one read of the total |
| Driver.WriteBothWays | base/corvus.c:136-189 | one write here and the same data in pieces there leave the same mbufs in memory, cursor by cursor and byte by byte |
| Driver.Session | base/corvus.c:17-53 | from a new context through any run to teardown: teardown goes ahead exactly when as many connections are live as cached ones were recycled again, and without such recycling everything ever allocated was then released once |
| Driver.EarlyTeardownExample | base/corvus.c:37-37 | one connection recycled twice lets teardown go ahead although another is live |
| Framing.WordOfHeader | client.cc:27-28 | the receiver's conversion of the header bytes gives back the length |
| Framing.BuildFrame | client.cc:24-29 | the first four bytes sent are the payload length, most significant byte first, the payload follows as it was, and the rest of the buffer is untouched |
| Framing.AnnouncedIs | server.cc:40-50 | the notification from the first four stream bytes, most significant first: the length plus 4 in 32 bits, when more than four bytes and at least that many are counted |
| Framing.PartAnnounced | server.cc:41-50 | a first part of a frame, its length field read most significant byte first, is announced only if it is the whole of a nonempty frame and fully counted |
| Framing.FrameNotes | server.cc:39-61 | for any split of a frame into nonempty chunks nothing is announced before the last one, and the last one announces payload_len + 4 exactly when the payload is nonempty and, as written, no chunk ends on an mbuf boundary |
| Framing.FrameOnce | server.cc:39-61 | a nonempty frame into an empty connection gives one notification, on the chunk that completes it |
| Framing.ReceiveFrame | server.cc:39-61 | the same executed on the heap: whatever the chunks, the client is notified once, of payload_len + 4, its delegate too if there is one, and the frame is in its stream |
| Framing.OffBoundaryIff | base/corvus.c:175-176 | the condition on the chunks, stated on the prefix lengths |
| Framing.EarlyIff | server.cc:46-48 | an incomplete frame, whatever part of it is counted, is announced if and only if more than four bytes are counted and its length field makes the 32-bit sum wrap |
| Framing.BigEndianExample | server.cc:44-48 | 00 00 00 01 and one byte: five bytes are announced |
| Framing.EarlyExample | server.cc:46-48 | length field FF FF FF FF and one byte: three bytes are announced |
| Framing.SilentExample | base/corvus.c:175-176 | a frame of 8 bytes in mbufs of 8, received at once, is never announced with the write as it stands |
| Framing.FrameAgain | server.cc:39-52 | once a whole frame has come, each later chunk announces that first frame again, and no other, exactly when its bytes are counted by then |
| Framing.FrameEachTime | server.cc:39-52 | with the intended write every one of them does |
| Framing.TcpClient.constructor | server.cc:26-30 | a client starts with one fresh empty connection, and no other connection changes |
| Framing.TcpClient.Examine | server.cc:41-51 | the peeked header, across mbufs, decides the notification |
| Framing.TcpClient.NotifyDataAvailable | server.cc:56-61 | each notification reaches the delegate if there is one |
| Framing.TcpClient.OnNewData | server.cc:39-52 | the chunk is appended to this connection alone, and the notification is that of the new stream, to the delegate too |
| Framing.TcpClient.OnNewDataAsWritten | server.cc:39-52 | the same on the write as it stands |
| Framing.TcpClient.Process | server.cc:126-156 | the receive loop gives each chunk its notifications in order, and all of them to the delegate if there is one, for any sequence of chunks; no other connection changes |

## Left out

- Corvus.Context.ConBufWrite: `data_size` and the 64-bit counters are unbounded integers; overflow of `int` past 2^31 - 1 is undefined in the source.
- Corvus.Context.ConBufRead: `len` is not negative; a negative one reaches memcpy like a negative `data_size`.
- Corvus.Context.ConBufReadAsWritten: required to have a destination large enough for what is copied, since the text checks no size; what undefined behaviour does after a fault is not modelled, and a run goes on as if the call had not been made.
- Corvus.Context.ContextConnectionNewAsWritten: a fault is a null result; what undefined behaviour does afterwards is not modelled.
- Framing.TcpClient.Process: sockets, epoll and the 1500-byte receive buffer are an arbitrary sequence of chunks, of any sizes.
- Framing.BuildFrame: the constant 2500 is a parameter, and the payload is whatever the buffer holds.
- Allocation always succeeds with a fresh object, as `cv_malloc` aborts otherwise; releasing is a ghost ledger entry.
- The byte layout of an mbuf header behind its data area, and `sizeof` arithmetic on it: an mbuf is a record with an array, and the capacity is a positive parameter.
- The `queue` field of an mbuf and the `ctx` fields of connections and con_infos, which only name their owners.
- `connection` and `mbuf` embed the same generic entry; `con_info` is a generic node around its queue.
- Connections still cached at teardown are not released by the source, so teardown speaks of mbufs and con_infos only.
- SLIST, LIST and CIRCLEQ macros, and the STAILQ operations that the buffer does not use.
- Printing, logging, `net/`, the other platform files and the BBR client: system calls and output.
