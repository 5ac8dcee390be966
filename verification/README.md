# Verified models of the network stack

Dafny models of the lwIP 1.3.2 stack and the Ethernet driver of this repository, with proofs of
what they keep. `dafny verify dfyconfig.toml` checks everything.

Most parts come in two layers. A functional layer says by value what each operation does to a list
of blocks, a graph of links and counts, a ring, a table; the theorems about whole runs are proved
there. An imperative layer follows the C code, on bytes, linked records, descriptor arrays and
cursors, and each of its methods is proved to do what the functional layer says.

| files | part |
|---|---|
| `heap_blocks`, `heap_bytes`, `heap` | the heap of mem.c: a list of blocks, the headers that spell it, and the code on the bytes of `ram` |
| `memp` | the fixed-size pools of memp.c |
| `pbuf_types`, `pbuf_graph`, `pbuf_reach`, `pbuf_store`, `pbuf_refs` | packet buffers: links, counts and references, what counting comes to, where they are stored, and the reference-counting code |
| `pbuf_alloc`, `pbuf_bytes`, `pbuf_realloc`, `pbuf_walk`, `pbuf_copy` | building, shrinking, copying chains, and the bytes they carry |
| `eth_ring` | the Tx and Rx descriptor rings shared with the DMA engine, and the queues they amount to |
| `eth_tx_steps`, `eth_rx_steps`, `eth_tx_driver`, `eth_rx_driver` | the driver's accesses one by one, with the DMA engine between them, and the code that makes them |
| `select`, `select_list`, `recv` | the wake-up protocol of select, its linked list, and the stream reader |
| `tcp_window`, `tcp_ports`, `tcp_lists` | the receive window, local ports and PCB lists |
| `timers` | the delta-encoded timeout list |
| `dns_table`, `dns_names` | the resolver's query table and its name codec |
| `dhcp_options` | the option writer and reader |
| `words` | integer widths, error codes and a few sequence helpers |

Conventions. C integers are unbounded numbers with the width written out wherever the code can
reach it (`U8`, `U16`, `U32`). In this build LWIP_ASSERT does nothing and LWIP_ERROR runs its
handler, so asserted conditions appear as preconditions only where the code cannot work without
them. What the outside world decides - whether there is an entry for a timeout, when the DMA engine moves,
what `rcvevent` reads, whether a segment goes out, what a DNS message contains - is a parameter or
an arbitrary value.

Where the code does not keep a promise for all inputs, the model follows the code, and a lemma or
contract says exactly when it does: sizes above 65532 in `mem_malloc` (`MallocRoom`); a reference
count at 65535 (`AddRefWidth`); `pbuf_cat` of a packet onto itself (`CatKeeps`), or past 65535 bytes
(`JoinTotals`); a multiple of 256 records freed at once in `pbuf_dechain` (`DechainPbuf`,
`StrungOrphans`); a wrapped request for PBUF_RAM (`AllocRam`); chains that end in empty records in
`pbuf_copy` (`WalkExactly`); descriptors at or above maxfdp1 in `lwip_select`
(`BeyondMaxIsForgotten`); reads of 2^16 bytes and more in `lwip_recvfrom` (`OffCounts`,
`DepositWraps`); 2^31 unadvertised bytes (`UpdateExact`, `UnsentFails`); `tcp_bind` to port 0
(`BindAnyExact`); a full DNS table with completed entries (`FullExactly`), a zero time to live
(`Flushed`), DNS identifiers above 255 (`ReceiveIndex`); frames longer than a Tx
buffer (`OutputQueues`); names of 255 octets (`ReservedExactly`); names compared with the beginnings
or separators of others, or with what an earlier name left behind (`ZeroMeansEqual`); an odd number
of PAD octets before a DHCP option (`AfterPads`).

## Model

| member | source | states |
|---|---|---|
| HeapBlocks.RunWellFormed | src/lwip/core/mem.c:223-607 | After any sequence of mem_malloc, mem_free and mem_realloc calls from mem_init, where only pointers handed out and not yet freed, NULL, and pointers outside the heap are given back, the blocks tile the heap exactly, offsets are aligned, every block holds at least the minimum, and no two free blocks are adjacent |
| HeapBlocks.PerformKeeps | src/lwip/core/mem.c:223-607 | One such call of any of the three, for any size, keeps that |
| HeapBlocks.AllFreedIsInit | src/lwip/core/mem.c:223-256 | After any such run, nothing is allocated exactly when the heap is again the single free block of mem_init |
| HeapBlocks.NothingLive | src/lwip/core/mem.c:223-256 | In any well-formed heap, nothing is allocated exactly when it is one free block |
| HeapBlocks.JoinsAreRelease | src/lwip/core/mem.c:223-256 | Joining forward and then backward is the same as freeing the block and its free neighbours in one go |
| HeapBlocks.MallocSound | src/lwip/core/mem.c:491-598 | A pointer handed out is aligned, inside the heap, disjoint from every live block, cut from the lowest free block that has room for the size, with less than twenty bytes to spare beyond the size rounded up to four; the other live blocks are untouched; NULL changes nothing |
| HeapBlocks.MallocComplete | src/lwip/core/mem.c:491-606 | NULL is returned exactly for a size of zero or when no free block has room for the size; for sizes above 65532 that is no free block at all |
| HeapBlocks.MallocBySize | src/lwip/core/mem.c:491-606 | For every size from 1 to 65532: NULL exactly when every block is used or has less room than the size |
| HeapBlocks.MallocRoom | src/lwip/core/mem.c:491-505 | The block handed out has room for what was asked exactly when the size is at most 65532: above, rounding up wraps the sixteen-bit size |
| HeapBlocks.FreeUndoesMalloc | src/lwip/core/mem.c:296-342 | mem_free right after mem_malloc restores the very same list of blocks |
| HeapBlocks.FreeLive | src/lwip/core/mem.c:296-342 | mem_free takes exactly the freed block out of the live ones |
| HeapBlocks.ReallocEffect | src/lwip/core/mem.c:356-470 | mem_realloc never moves a block; it fails exactly when the size asked for is more than the block has; otherwise it shrinks that one live block in place, to at least the size, and gives all back that can be a block: exactly the rest when the next block is free, else the rest when it is twenty bytes or more |
| HeapBlocks.ForeignSpared | src/lwip/core/mem.c:304-318 | NULL and pointers outside the heap change nothing in mem_free and mem_realloc |
| HeapBlocks.LiveDisjoint | src/lwip/core/mem.c:491-598 | Two live blocks never overlap |
| HeapBlocks.LiveDetermines | src/lwip/core/mem.c:223-256 | Two well-formed heaps with the same live blocks are the same list of blocks |
| HeapBytes.SpliceSpells | src/lwip/core/mem.c:223-256 | Rewriting the headers of neighbouring blocks leaves a heap whose headers spell the new list, with prev the inverse of next everywhere but at the end marker |
| HeapMemory.Heap.constructor | src/lwip/core/mem.c:261-288 | mem_init writes the headers of one free block and the end marker into the byte array |
| HeapMemory.Heap.PlugHoles | src/lwip/core/mem.c:223-256 | On the bytes: joins a freed block with its free neighbours, keeps the lowest-free offset right and every live payload as it was |
| HeapMemory.Heap.FreeMem | src/lwip/core/mem.c:296-342 | On the bytes: mem_free does what the list says, the lowest-free offset stays right, no live payload changes |
| HeapMemory.Heap.ReallocMem | src/lwip/core/mem.c:356-470 | On the bytes: all four outcomes of mem_realloc do what the list says and change no live payload |
| HeapMemory.Heap.MallocMem | src/lwip/core/mem.c:481-607 | On the bytes: the search from the lowest-free offset with its bound finds the first fit of the whole heap, and the result does what the list says and changes no live payload |
| HeapMemory.Heap.ScanForFit | src/lwip/core/mem.c:505-590 | Neither starting at the lowest-free offset nor the bound on the search ever skips a block that fits |
| Memp.Pools.constructor | src/lwip/core/memp.c:259-292 | memp_init carves disjoint shares for the pools, in order, and links each into an acyclic free list |
| Memp.Pools.Malloc | src/lwip/core/memp.c:305-343 | Takes the head of the free list; free and handed-out elements stay exactly the carved ones, lists stay sound and disjoint |
| Memp.Pools.Free | src/lwip/core/memp.c:350-384 | Puts an element handed out by this pool at the head of its list, and keeps the same |
| Memp.TakenSound | src/lwip/core/memp.c:305-343 | memp_malloc returns nothing exactly when every carved element is out, and never an element twice |
| Memp.GivenSound | src/lwip/core/memp.c:350-384 | memp_free conserves free plus handed-out elements in every pool |
| Memp.GivenUndoesTaken | src/lwip/core/memp.c:305-384 | memp_free right after memp_malloc restores all lists |
| PbufGraph.FreeKeeps | src/lwip/core/pbuf.c:530-597 | After pbuf_free every live count is again the callers' references plus the links, and every chain ends |
| PbufGraph.ReleaseEffect | src/lwip/core/pbuf.c:530-597 | pbuf_free deallocates exactly the longest head run of single references, takes one from the record after it, and touches nothing else |
| PbufGraph.ReleaseCount | src/lwip/core/pbuf.c:530-597 | The number deallocated is the length of that run |
| PbufGraph.AddRefKeeps | src/lwip/core/pbuf.c:625-635 | pbuf_ref keeps counts exact |
| PbufGraph.AddRefWidth | src/lwip/core/pbuf.c:625-635 | With its sixteen-bit count it does so exactly when the count is below 65535 |
| PbufGraph.CatKeeps | src/lwip/core/pbuf.c:647-670 | pbuf_cat keeps the invariant exactly when the end of the head chain is not on the tail chain |
| PbufGraph.CatCycles | src/lwip/core/pbuf.c:647-670 | Otherwise it makes a chain that never ends |
| PbufGraph.DechainKeeps | src/lwip/core/pbuf.c:705-734 | pbuf_dechain keeps counts exact and chains ending |
| PbufGraph.DechainCount | src/lwip/core/pbuf.c:705-734 | So many pbufs die in pbuf_dechain as head the tail with that link as their only reference, and the tail is gone exactly when there are any |
| PbufGraph.StrungOrphans | src/lwip/core/pbuf.c:705-734 | On a chain of 257 records that only its first keeps alive, 256 die, and the eight-bit count that should tell shows zero |
| PbufGraph.DechainUndoesChain | src/lwip/core/pbuf.c:688-734 | In terms of links, counts and references: pbuf_chain and then pbuf_dechain on a single pbuf give back the very same graph |
| PbufGraph.AllocKeeps | src/lwip/core/pbuf.c:307-323 | A new pbuf with its one reference keeps the invariant |
| PbufGraph.PerformKeeps | src/lwip/core/pbuf.c:530-734 | Each legal call keeps the reference-count invariant, and no count comes to 65536 |
| PbufGraph.Run | src/lwip/core/pbuf.c:530-734 | So does every run of legal calls, in any order |
| PbufGraph.NothingLeaks | src/lwip/core/pbuf.c:530-597 | When callers hold no references, no pbuf is live, and only then |
| PbufReach.CallExactly | src/lwip/core/pbuf.c:307-734 | Counting references comes to this, for each of the six calls: after it exactly those pbufs are live that can be reached from a reference callers hold once the call has set or cut its link and taken or given its reference; links and holders are those, each count is right, and no other outcome is so |
| PbufReach.LiveReached | src/lwip/core/pbuf.c:530-597 | Between calls the live pbufs are exactly those on the chain of one that callers hold |
| PbufReach.OneOutcome | src/lwip/core/pbuf.c:570-573 | Links and holders leave one choice of counts |
| PbufRefs.Packets.Drop | src/lwip/core/pbuf.c:545-597 | The loop of pbuf_free on the records computes that release; exactly the heap blocks and pool elements of the pbufs that die go back, and no other; every pbuf left keeps its own; its result is the number of dead modulo 256 |
| PbufRefs.Packets.FreePbuf | src/lwip/core/pbuf.c:530-597 | pbuf_free on the records: the live heap blocks and the elements handed out are afterwards the old ones but for those of the pbufs that died; every other pbuf's room is as it was |
| PbufRefs.Packets.RefPbuf | src/lwip/core/pbuf.c:625-635 | pbuf_ref on the records, with the sixteen-bit count |
| PbufRefs.Packets.CatPbuf | src/lwip/core/pbuf.c:647-670 | pbuf_cat on the records: the caller's reference becomes the link, the two chains become one, every record of the head chain has the tail's total added modulo 2^16, no other total changes; the joined chain has right totals exactly when the two totals together are below 2^16 |
| PbufRefs.Packets.ChainPbuf | src/lwip/core/pbuf.c:688-695 | pbuf_chain: all of that, and the caller keeps its reference |
| PbufRefs.Packets.DechainPbuf | src/lwip/core/pbuf.c:705-734 | pbuf_dechain on the records: the totals of the two parts; the tail is returned exactly when the pbufs that die are a multiple of 256, and then dangles exactly when they are not zero, both told from the state before the call; exactly the places of those that die go back, and every pbuf left keeps its room |
| PbufRefs.Packets.ChainThenDechain | src/lwip/core/pbuf.c:688-734 | pbuf_chain and then pbuf_dechain of a single pbuf return the tail, with every link, count and total as before, whatever the totals were |
| PbufBytes.JoinTotals | src/lwip/core/pbuf.c:654-664 | Adding the tail's total in sixteen bits leaves right totals exactly when the sum fits |
| PbufStore.PutStored | src/lwip/core/pbuf.c:566-590 | Giving back one pbuf's place leaves every other in a place of its own |
| PbufStore.PutSpared | src/lwip/core/pbuf.c:566-590 | and leaves every other the room it had |
| PbufStore.PutGivesBack | src/lwip/core/pbuf.c:570-590 | The live blocks and the elements handed out are afterwards the old ones but for that pbuf's |
| PbufStore.TakenStored | src/lwip/core/pbuf.c:211-305 | A place from a pool is the new pbuf's own |
| PbufStore.MallocStored | src/lwip/core/pbuf.c:280-296 | A place from the heap is the new pbuf's own |
| PbufStore.MallocSpared | src/lwip/core/pbuf.c:280-296 | and no other loses any |
| PbufStore.MallocTakes | src/lwip/core/pbuf.c:280-296 | The live blocks are afterwards the old ones and the new pbuf's |
| PbufStore.TookGaveBack | src/lwip/core/pbuf.c:280-296 | Taking a block for a pbuf and giving it back leaves the very same heap |
| PbufAlloc.AllocPool | src/lwip/core/pbuf.c:211-280 | PBUF_POOL: the payload starts 72, 52, 32 or 16 bytes into the first element for the transport, IP, link and raw layer, which leaves room for the headers below it; NULL exactly when length is more than the free pool elements hold, and then the graph is as before; else a chain of as many new elements as that takes, each with count 1, full before the next, totals counting down from length |
| PbufAlloc.ElementsExactly | src/lwip/core/pbuf.c:224-276 | n elements are enough exactly for 1532 bytes less that offset and 1516 for each one further |
| PbufAlloc.Fill | src/lwip/core/pbuf.c:236-276 | The loop takes one element for each further POOL_BUFSIZE bytes and gives up exactly when the pool runs out |
| PbufAlloc.FreeFresh | src/lwip/core/pbuf.c:247-254 | Freeing the chain built so far undoes all of the allocation |
| PbufAlloc.AllocRam | src/lwip/core/pbuf.c:281-296 | PBUF_RAM: the payload starts 72, 52, 32 or 16 bytes into the block by layer; one heap block, no larger than it has to be, which has room for record, headers and bytes exactly when the sixteen-bit request did not wrap; then NULL exactly when no free block has that room |
| PbufAlloc.RamBySize | src/lwip/core/pbuf.c:280-284 | There is a block for the rounded request exactly when there is one for the bytes |
| PbufAlloc.Allocate | src/lwip/core/pbuf.c:179-324 | pbuf_alloc of any kind: NULL exactly when pool or heap cannot give what the kind asks for, and then heap and sets of free elements are unchanged; else a fresh chain with right totals, with the layer's room for headers, whose records have room for their bytes, unless the request for PBUF_RAM wrapped; only PBUF_RAM takes from the heap, one block |
| PbufAlloc.AllocThenFree | src/lwip/core/pbuf.c:179-597 | pbuf_alloc of any kind and pbuf_free of the result restore the graph, the heap and the sets of free elements, whatever the length |
| PbufStore.SameLive | src/lwip/core/pbuf.c:247-254 | The same live pbufs mean the same free and handed-out elements, whatever the order of the lists |
| PbufRealloc.ReallocPbuf | src/lwip/core/pbuf.c:342-401 | The chain holds exactly the first new_len bytes, every total is right again, the cut tail loses one reference, the places of pbufs that die go back, a shortened PBUF_RAM record keeps no larger block than it has to; every pbuf left has room for its bytes, so that it can be shrunk again; nothing changes when new_len is not smaller |
| PbufRealloc.GrowShrinks | src/lwip/core/pbuf.c:363-380 | Adding (u16_t)grow modulo 2^16 takes exactly the difference off a total |
| PbufRealloc.StepOver | src/lwip/core/pbuf.c:367-380 | The skipping loop ends inside the chain and leaves right totals |
| PbufRealloc.FrontStays | src/lwip/core/pbuf.c:393-400 | Cutting a chain leaves its front, whatever becomes of the tail |
| PbufRealloc.ReallocStored | src/lwip/core/pbuf.c:382-388 | Shrinking the block in place succeeds, leaves every pbuf its place and every other pbuf its room |
| PbufCopy.Copy | src/lwip/core/pbuf.c:754-807 | Whatever the two segmentations: ERR_ARG exactly when an argument is missing or the target too small; ERR_VAL and the dereference of NULL exactly when the lengths of the records say so (`Refuses`, `Crashes`), else ERR_OK; the target starts with the bytes copied, all of the source for ERR_OK, and is otherwise unchanged |
| PbufWalk.WalkExactly | src/lwip/core/pbuf.c:769-805 | For all packets with right totals: pbuf_copy dereferences NULL exactly when the source is two records, the second empty, and the target one record as long as the first; it says ERR_VAL exactly when the source ends in an empty record and does not slip through so, or the target does and the copy comes to its last full record |
| PbufWalk.WholePacketsDone | src/lwip/core/pbuf.c:769-805 | Packets that do not end in empty records are always copied |
| PbufWalk.CrashInputs | src/lwip/core/pbuf.c:769-805 | An input of each kind |
| PbufCopy.CopyStep | src/lwip/core/pbuf.c:770-780 | One copy between the two cursors extends the copied prefix |
| PbufCopy.CopyPartial | src/lwip/core/pbuf.c:820-856 | At any offset: exactly that slice of the packet, clipped to len and to the packet's end, and the rest of the buffer unchanged |
| PbufCopy.Take | src/lwip/core/pbuf.c:868-898 | The packet starts with the data and is otherwise unchanged; ERR_ARG when it is too small; 0, which is ERR_OK, for missing arguments although nothing is taken |
| PbufCopy.TakeThenCopy | src/lwip/core/pbuf.c:820-898 | What pbuf_take put in, pbuf_copy_partial gets back |
| PbufBytes.TotalsSum | src/lwip/core/pbuf.c:760-764 | With right totals, tot_len is the number of bytes from that record on |
| PbufBytes.WriteAt | src/lwip/core/pbuf.c:779 | Writing in one record is writing at that place of the packet |
| EthRing.OutputQueues | src/ethernetif.c:119-153 | low_level_output appends to a bounded queue and reports ERR_USE exactly when N frames are outstanding; it writes past its buffer exactly when they are not and the frame is longer than the buffer, which it does not check; DMA-owned descriptors stay one interval of the circle that ends at CurTxDesc |
| EthRing.TransmitDequeues | src/ethernetif.c:144-145 | The DMA engine sends the oldest frame with exactly its bytes |
| EthTxSteps.TxInOrder | src/ethernetif.c:119-153 | With the accesses of low_level_output one by one and the DMA engine between any two of them, for any number of descriptors and frames of any length, up to a write past the buffer: frames leave in the order handed over, with exactly their bytes, none lost or repeated, at most N waiting |
| EthTxSteps.TxSpares | src/ethernetif.c:129-148 | In every such interleaving the driver changes no descriptor or buffer that the DMA engine owns, nor the other way round |
| EthTxSteps.DriverKeeps | src/ethernetif.c:124-150 | Each access keeps: the descriptor worked on is the driver's and holds what was copied so far; only setting OWN, with DESC1 written before, adds a frame to the queue; only a frame longer than the buffer is written past it, and none such gets its size written |
| EthTxSteps.BusyExactly | src/ethernetif.c:129-132 | ERR_USE exactly when N frames are outstanding |
| EthTxSteps.TxFromStart | src/ethernetif.c:67-153 | All this for every run from low_level_init on |
| EthRing.ArriveQueues | src/ethernetif.c:87-104 | An arrival is taken exactly when some descriptor belongs to the DMA engine, and joins the end of the queue |
| EthRing.InputDequeues | src/ethernetif.c:158-211 | low_level_input takes the oldest arrival: a good frame with exactly its bytes less the four of the check sequence, anything else thrown away |
| EthRxSteps.RxInOrder | src/ethernetif.c:158-211 | With the accesses of low_level_input one by one and the DMA engine between any two of them, for any number of descriptors: every good frame taken in is handed up once, in order, with exactly its bytes less the check sequence, but for those the pool had too few elements for |
| EthRxSteps.RxSpares | src/ethernetif.c:170-207 | In every such interleaving the driver reads and writes no descriptor or buffer that the DMA engine owns, and the DMA engine changes none of the driver's |
| EthRxSteps.DriverKeeps | src/ethernetif.c:166-208 | Each access keeps: the buffer read is the driver's and holds the oldest arrival; what was read so far is its beginning; only setting OWN takes it out of the queue |
| EthRxSteps.LandKeeps | src/ethernetif.c:87-104 | Whatever the driver is about, an arrival is taken exactly when some descriptor belongs to the DMA engine |
| EthRxSteps.RxFromStart | src/ethernetif.c:87-211 | All this for every run from low_level_init on |
| EthTxDriver.TxDriver.constructor | src/ethernetif.c:65-85 | low_level_init chains the Tx descriptors in a circle, none owned by the DMA engine |
| EthTxDriver.TxDriver.LowLevelOutput | src/ethernetif.c:119-153 | On descriptors and buffers: each access is the next of the moves above, in that order, and without the DMA engine between them all do what the ring says, including the write past the buffer |
| EthTxDriver.TxDriver.CopyOne | src/ethernetif.c:135-139 | memcpy of one record is the move that copies it |
| EthRxDriver.RxDriver.constructor | src/ethernetif.c:87-104 | low_level_init chains the Rx descriptors in a circle, all owned by the DMA engine |
| EthRxDriver.RxDriver.LowLevelInput | src/ethernetif.c:158-211 | On descriptors and buffers, access by access: the oldest arrival leaves the ring; a pbuf chain is returned exactly when it is a good frame and the pool has elements for it, and holds exactly its bytes; without a chain no pbuf changes |
| EthRxDriver.RxDriver.FetchFrame | src/ethernetif.c:183-197 | A new pool chain with right totals that holds the frame's bytes, unless the pool has too few elements, exactly |
| SelectProtocol.PerformKeeps | src/lwip/api/sockets.c:909-1123 | Each step keeps: a waiter not yet signalled with a ready socket below its maxfdp1 has an event_callback for that socket in its loop |
| SelectProtocol.NoLostWakeUp | src/lwip/api/sockets.c:909-1123 | So in every interleaving; and whenever no callback is in its loop, no waiter sleeps on a ready socket |
| SelectProtocol.ScanProgress | src/lwip/api/sockets.c:1097-1123 | A turn of the loop ends it with nobody left to signal, or signals one waiter not signalled before |
| SelectProtocol.Drain | src/lwip/api/sockets.c:1097-1123 | Left alone, the loop ends, and then nobody unsignalled is ready on its socket |
| SelectProtocol.BeyondMaxIsForgotten | src/lwip/api/sockets.c:855-876 | When no callback is in its loop, a new waiter sleeps on a ready socket exactly when one it asked for at or above maxfdp1 is ready |
| SelectProtocol.OnlyBeyondMax | src/lwip/api/sockets.c:909-1123 | After any run without a callback in its loop, those are the only sockets an unsignalled waiter could be signalled for |
| SelectProtocol.BeyondMaxHappens | src/lwip/api/sockets.c:855-876 | It happens with descriptor 3 and maxfdp1 3 |
| SelectProtocol.UpdateExactly | src/lwip/api/sockets.c:1074-1093 | RCVPLUS raises rcvevent and RCVMINUS lowers it, as a signed sixteen-bit number; SENDPLUS sets sendevent and SENDMINUS clears it; no other socket changes |
| SelectProtocol.SelectExactly | src/lwip/api/sockets.c:911-957 | lwip_select returns at once exactly when it polls or a descriptor asked for below maxfdp1 is ready; else its waiter is put first on the list |
| SelectProtocol.LeaveExactly | src/lwip/api/sockets.c:970-983 | A waiter that leaves is the only one taken out |
| SelectProtocol.ScanExactly | src/lwip/api/sockets.c:1101-1123 | A turn of the loop signals the first waiter that waits for its socket and was not signalled, or ends the loop exactly when there is none |
| SelectList.Sockets.Selscan | src/lwip/api/sockets.c:842-880 | Counts and collects exactly the requested descriptors below maxfdp1 that are ready |
| SelectList.Sockets.EnterSelect | src/lwip/api/sockets.c:909-949 | Scan and enqueue on the linked list is one step of the protocol |
| SelectList.Sockets.LeaveSelect | src/lwip/api/sockets.c:963-975 | Unlinking takes out just that waiter |
| SelectList.Sockets.SetEvent | src/lwip/api/sockets.c:1074-1093 | The update of a socket is one step of the protocol, with the sixteen-bit counter wrapping |
| SelectList.Sockets.ScanOnce | src/lwip/api/sockets.c:1103-1122 | One turn of the loop on the linked list: one protocol step, which signals the semaphore once of exactly the waiter marked |
| SelectList.Sockets.EventCallback | src/lwip/api/sockets.c:1074-1123 | The whole call, undisturbed, is the update and the drained loop |
| Recv.Socket.RecvFrom | src/lwip/api/sockets.c:490-626 | Over any sequence of calls on a TCP socket, bytes taken from netconn_recv are bytes delivered followed by what lastdata keeps; what was kept back is delivered first, nothing is delivered only when nothing was taken, and something is kept back only when the caller's memory is full; for len below 2^16 the caller's memory holds exactly the bytes of this call and the result is their number; a call without data says -1 exactly when it may not wait and rcvevent told of none, else 0 |
| Recv.Socket.CopyOut | src/lwip/api/sockets.c:526-620 | One buffer: the next bytes, as many as are asked for and there, are delivered and the rest is kept; the call goes on exactly for a connection that asked for more, when the buffer was not pushed, rcvevent tells of more and it does not peek |
| Recv.Socket.NextBuffer | src/lwip/api/sockets.c:493-511 | What was kept back is read without asking; else rcvevent is read first exactly when the call may not wait, and netconn_recv called unless that told of none |
| Recv.DepositInOrder | src/lwip/api/sockets.c:538-543 | Below 2^16 bytes the pieces lie one after the other in the caller's memory |
| Recv.OffCounts | src/lwip/api/sockets.c:541-543 | The sixteen-bit offset counts the bytes copied exactly when they are fewer than 2^16 |
| Recv.DepositWraps | src/lwip/api/sockets.c:541-543 | Beyond that a later byte overwrites the first |
| TcpWindow.RunKeeps | src/lwip/core/tcp.c:408-460 | Over any run of receiving, tcp_recved and sending, whether or not the acknowledgements asked for go out, as long as less than 2^31 bytes of room are unadvertised: the advertised right edge never moves left, never passes rcv_nxt + rcv_wnd, and the window stays within TCP_WND, all modulo 2^32 |
| TcpWindow.WithinEdgeRoomy | src/lwip/core/tcp.c:408-460 | That holds over every run in which the sender keeps to the right edge it was told |
| TcpWindow.SentRoomy | src/lwip/core/tcp.c:447-456 | and over every run in which each acknowledgement asked for goes out, wherever the sender sends |
| TcpWindow.FewBytesRoomy | src/lwip/core/tcp.c:408-460 | and over every run in which less than 2^31 bytes are given back |
| TcpWindow.UnsentFails | src/lwip/core/tcp.c:408-460 | It is needed: in a run from the start of a connection with no acknowledgement sent, a window of 64384 bytes is advertised where none is left |
| TcpWindow.StepKeeps | src/lwip/core/tcp.c:408-460 | One step keeps that whether or not the acknowledgement it asks for goes out, while less than 2^31 bytes of room are unadvertised |
| TcpWindow.SlackBounded | src/lwip/core/tcp.c:447-456 | When those acknowledgements go out, at most one window of room is ever unadvertised |
| TcpWindow.UpdateMeaning | src/lwip/core/tcp.c:407-427 | What tcp_update_rcv_ann_wnd computes, in numbers that do not wrap, with no truncation to sixteen bits |
| TcpWindow.UpdateExact | src/lwip/core/tcp.c:407-427 | Exactly when the update keeps the window |
| TcpWindow.UpdateFails | src/lwip/core/tcp.c:407-427 | With 2^31 bytes unacknowledged it advertises a window that is not there |
| TcpWindow.RecvedExactly | src/lwip/core/tcp.c:437-455 | tcp_recved restores the room up to 5840 bytes and announces all of it exactly when the peer does not know of a segment's worth or of 2920 bytes of it; it is told at once exactly when those are 1460 bytes or more; else the right edge stays |
| TcpWindow.ReceiveExactly | src/lwip/core/tcp.c:408-428 | What a segment in order takes off the window, and when the window then announced opens |
| TcpWindow.NeverStalls | src/lwip/core/tcp.c:437-455 | After tcp_recved a peer that is told knows all the room there is but 2919 bytes at most, so it has a window whenever 2920 bytes are free |
| TcpWindow.SeqGeqExact | src/lwip/include/lwip/tcp.h:152-155 | The signed comparison of sequence numbers is right exactly when they are less than 2^31 apart |
| TcpWindow.ConnectedOk | src/lwip/core/tcp.c:533-540 | The first window is all of 5840 bytes, the first segment tells it, and the invariant holds |
| TcpWindow.TcpPcb.UpdateRcvAnnWnd | src/lwip/core/tcp.c:407-427 | The method on the fields computes the update |
| TcpWindow.TcpPcb.TcpRecved | src/lwip/core/tcp.c:437-460 | So does tcp_recved, with the inflation compared as a signed number |
| TcpWindow.TcpPcb.TcpReceive | src/lwip/core/tcp_in.c:1222-1230 | And the window part of receiving a segment in order |
| TcpWindow.TcpPcb.TransmitSegment | src/lwip/core/tcp_out.c:72-78 | And the window part of sending one |
| TcpPorts.Pigeonhole | src/lwip/core/tcp.c:468-499 | With fewer active, TIME-WAIT and listening PCBs than the 28672 ports of the range, some port is free |
| TcpPorts.NewPortFree | src/lwip/core/tcp.c:468-499 | The search then ends with a port of the range that none of those PCBs uses |
| TcpPorts.SearchFinds | src/lwip/core/tcp.c:479-498 | It reaches any free port within its cyclic distance |
| TcpPorts.BindKeeps | src/lwip/core/tcp.c:275-335 | A bind of a fresh PCB makes no overlapping claim among bound and listening PCBs |
| TcpPorts.BindExactly | src/lwip/core/tcp.c:282-330 | tcp_bind says ERR_USE exactly when a listening, active or bound PCB has the port with an overlapping address or a TIME-WAIT PCB has port and address; else the PCB is first of the bound with that claim; nothing else changes |
| TcpPorts.ListenKeeps | src/lwip/core/tcp.c:365-400 | Nor does listening on a bound one |
| TcpPorts.ListenExactly | src/lwip/core/tcp.c:365-400 | Of a closed PCB, when there is memory, it leaves the bound list and one with its claim is first of those that listen; else nothing changes |
| TcpPorts.ConnectExactly | src/lwip/core/tcp.c:513-554 | tcp_connect of a closed PCB puts it first of the active, off the bound list, with its port, or with one that no listening, active or TIME-WAIT PCB has |
| TcpPorts.CloseExactly | src/lwip/core/tcp.c:126-230 | tcp_close takes a PCB without a connection off its list; SYN-RECEIVED and ESTABLISHED become FIN-WAIT-1, CLOSE-WAIT becomes LAST-ACK, when the FIN can be queued; nothing else changes |
| TcpPorts.RunExclusive | src/lwip/core/tcp.c:126-567 | Across every sequence of bind, listen, connect and close, no two bound or listening PCBs claim the same port for overlapping addresses |
| TcpPorts.PerformKeeps | src/lwip/core/tcp.c:126-567 | Each of these calls keeps that |
| TcpPorts.BindAnyExact | src/lwip/core/tcp.c:282-323 | Binding to port 0 is refused exactly when the port found belongs to an overlapping bound PCB |
| TcpPorts.BindAnyRefused | src/lwip/core/tcp.c:282-323 | It can be refused although a later port is free |
| TcpLists.Tcp.NewPortNumber | src/lwip/core/tcp.c:468-499 | The loop over the static port ends, with what the search says |
| TcpLists.Tcp.BindPcb | src/lwip/core/tcp.c:275-335 | tcp_bind on the linked lists does what Bind says |
| TcpLists.Tcp.ListenWithBacklog | src/lwip/core/tcp.c:365-400 | tcp_listen_with_backlog on the linked lists: NULL exactly when nothing moves; else the new PCB returned takes the place of the old, at the head of the listening list |
| TcpLists.Tcp.ConnectPcb | src/lwip/core/tcp.c:513-554 | tcp_connect on the linked lists |
| TcpLists.Tcp.FreePcb | src/lwip/core/tcp.c:135-157 | tcp_close of a PCB without a connection on the linked lists |
| TcpLists.PcbList.Reg | src/lwip/include/lwip/tcp.h:674-679 | TCP_REG puts the PCB in front |
| TcpLists.PcbList.Rmv | src/lwip/include/lwip/tcp.h:681-697 | TCP_RMV takes out that PCB, or changes nothing when it is not listed |
| Timers.InsertSchedules | src/lwip/core/sys.c:187-235 | Inserting by differences places the timeout by its absolute expiry and moves no other |
| Timers.SchedulePlace | src/lwip/core/sys.c:222-234 | Its place is behind everything that expires no later and before everything that expires later |
| Timers.RemoveCancels | src/lwip/core/sys.c:247-281 | Removing by differences takes out the first match and moves no other expiry |
| Timers.RemoveUndoesInsert | src/lwip/core/sys.c:187-281 | sys_untimeout of a timeout just set, when nothing else matches, restores the list |
| Timers.WaitAdvances | src/lwip/core/sys.c:109-115 | Time passing brings every expiry nearer by what passed, but never past the first |
| Timers.FireAdvances | src/lwip/core/sys.c:90-98 | When the first entry leaves, the others have come nearer by its time |
| Timers.RunAccounts | src/lwip/core/sys.c:60-281 | Over every run of setting, cancelling, waiting and falling due: each timeout set is in one place, cancelled, called, or waiting with the very expiry it was set for; handlers are called in the order of the expiries and none before its time by the list's clock |
| Timers.StepAccounts | src/lwip/core/sys.c:60-281 | Each event keeps that |
| Timers.ExpiriesSorted | src/lwip/core/sys.c:187-235 | The absolute expiries are always sorted |
| Timers.InsertSpan | src/lwip/core/sys.c:187-235 | The last expiry stays below 2^32, so no sum or difference wraps |
| Timers.SysTimeouts.SysTimeout | src/lwip/core/sys.c:187-235 | On the linked nodes, with thirty-two-bit subtraction, does what Insert says |
| Timers.SysTimeouts.SysUntimeout | src/lwip/core/sys.c:247-281 | On the linked nodes, with thirty-two-bit addition, does what Remove says |
| Timers.SysTimeouts.Elapse | src/lwip/core/sys.c:109-115 | On the linked nodes, the time that passed comes off the first entry |
| Timers.SysTimeouts.Fire | src/lwip/core/sys.c:86-98 | On the linked nodes, the first entry leaves and is the one whose handler is called |
| DnsTable.RunAccounts | src/lwip/core/dns.c:643-930 | Over every run of queries, messages and ticks, each accepted query either waits or has had its callback called exactly once |
| DnsTable.PerformAccounts | src/lwip/core/dns.c:643-930 | Each event keeps that account |
| DnsTable.TimesOut | src/lwip/core/dns.c:643-691 | An entry that nobody answers is asked for 1 + R(R-1)/2 ticks per reachable server, and then its callback is called |
| DnsTable.TimesOutInRun | src/lwip/core/dns.c:643-930 | So in every run of the table, whatever else is asked, answered or timed out, as long as no message for that entry arrives |
| DnsTable.FreshDeadline | src/lwip/core/dns.c:878-930 | An accepted query has that many ticks: 7 for the one server, 14 when there is a second |
| DnsTable.TickCounts | src/lwip/core/dns.c:660-691 | A tick uses up one of these; the callback comes exactly at the last |
| DnsTable.EnqueueSpares | src/lwip/core/dns.c:878-930 | dns_enqueue takes an unused or completed entry and touches no other |
| DnsTable.EnqueueExactly | src/lwip/core/dns.c:916-929 | The entry chosen asks the first server for the first time under the next sequence number; every other entry stays |
| DnsTable.ChooseExactly | src/lwip/core/dns.c:885-911 | The entry chosen is the first unused one, else the first of the oldest completed ones with an age above zero, else entry 0 if it is completed |
| DnsTable.FullExactly | src/lwip/core/dns.c:886-913 | When dns_enqueue gives up, exactly |
| DnsTable.FullThoughDone | src/lwip/core/dns.c:886-913 | A run from dns_init after which a query is refused although an entry is completed, the sequence numbers having wrapped |
| DnsTable.Flushed | src/lwip/core/dns.c:693-701 | A completed entry stays for its time to live, and for 2^32 ticks when that is zero |
| DnsTable.ReceiveIndex | src/lwip/core/dns.c:772-776 | A response finishes entry i exactly when the low eight bits of its identifier are i |
| DnsTable.ReceiveExactly | src/lwip/core/dns.c:771-860 | An answer to an entry that asks completes it with its time to live, at most 604800 seconds; an error frees it; its callback is called once; any other message changes nothing |
| DnsTable.Resolver.DnsCheckEntry | src/lwip/core/dns.c:643-711 | On the array: dns_check_entry |
| DnsTable.Resolver.DnsCheckEntries | src/lwip/core/dns.c:716-724 | On the array: a tick for every entry |
| DnsTable.Resolver.DnsRecv | src/lwip/core/dns.c:771-856 | On the array: dns_recv of a message for an entry |
| DnsTable.Resolver.DnsEnqueue | src/lwip/core/dns.c:878-930 | On the array: the search and the first question of dns_enqueue |
| DnsNames.RoundTrip | src/lwip/core/dns.c:500-610 | For every dotted name with labels of 1 to 63 octets: the encoding is walked to its very end and compares equal to the name, whatever the array of the name holds behind its end |
| DnsNames.Encode | src/lwip/core/dns.c:591-610 | The encoder writes each label with its length octet and the root, two octets more than the name, for every name; it writes past the end exactly when so many do not fit |
| DnsNames.ReservedExactly | src/lwip/core/dns.c:584-612 | Of the names dns_gethostbyname admits, those of 255 octets, and no others, are encoded in more than dns_send reserves for them |
| DnsNames.DottedSplit | src/lwip/core/dns.c:594-609 | Labels without dots are found again in the dotted name |
| DnsNames.SplitDotted | src/lwip/core/dns.c:594-609 | Every name is the dotted form of its labels |
| DnsNames.ParseName | src/lwip/core/dns.c:535-556 | Ends right after any proper labels closed by the root or by a compression pointer |
| DnsNames.CompareName | src/lwip/core/dns.c:500-526 | 0 exactly when the name agrees octet for octet with each label, whatever stands between labels in the name; with dots there, exactly when it starts with the labels' dotted name; it reads past the array exactly when that does not agree but would with the right octets behind it |
| DnsNames.PrefixAgrees | src/lwip/core/dns.c:505-523 | A name agrees with any first labels of a name it agrees with |
| DnsNames.AgreesDotted | src/lwip/core/dns.c:505-523 | Agreeing is having the dotted name there exactly when the separators skipped are dots |
| DnsNames.ZeroMeansEqual | src/lwip/core/dns.c:500-526 | Whatever the array holds behind the name: a result of 0 means equal names exactly when the separators skipped are dots and the comparison stopped at the end of the name |
| DnsNames.OwnPrefixAgrees | src/lwip/core/dns.c:505-523 | Every name compares equal to each beginning of its own labels, which is another name |
| DnsNames.AnySeparator | src/lwip/core/dns.c:515 | "a", any octet, "b" compares equal to "a.b" |
| DnsNames.StaleOctets | src/lwip/core/dns.c:519 | "a" with "b" left behind its end by an earlier "a.b" compares equal to "a.b" |
| DnsNames.OwnNameAgrees | src/lwip/core/dns.c:500-526 | A name agrees with its own labels |
| DnsNames.WireSpells | src/lwip/core/dns.c:594-610 | An encoded name is a sequence of labels the readers understand |
| DhcpOptions.RoundTrip | src/lwip/core/dhcp.c:1246-1280 | Options other than OVERLOAD, written one after the other and closed by the trailer, are found again: the first of each kind with its exact value, whatever octets the values hold, or nothing exactly when there is none |
| DhcpOptions.GetOptionPtr | src/lwip/core/dhcp.c:1599-1630 | On any octets whatever the loop over the options field comes to what Scan says: an option, nothing with the last OVERLOAD octet, or a read past the end |
| DhcpOptions.ScanFinds | src/lwip/core/dhcp.c:1603-1630 | On a message that holds options: the first of the kind with its exact value, or nothing exactly when there is none, with what the last OVERLOAD option says |
| DhcpOptions.AfterPad | src/lwip/core/dhcp.c:1620-1626 | Starting on a PAD octet, the search reads a length after it and does not find an option that follows at once |
| DhcpOptions.AfterPads | src/lwip/core/dhcp.c:1603-1626 | An option after a run of PAD octets is found exactly when their number is even |
| DhcpOptions.PadMisread | src/lwip/core/dhcp.c:1620-1626 | A message type missed after one PAD and found after two |
| DhcpOptions.LongRoundTrip | src/lwip/core/dhcp.c:1272-1280 | dhcp_get_option_long inverts dhcp_option_long for every 32-bit number |
| DhcpOptions.LongBytesRoundTrip | src/lwip/core/dhcp.c:1711-1720 | And the other way round for every four octets |
| DhcpOptions.NetworkOrder | src/lwip/core/dhcp.c:1264-1280 | Both kinds of number are written with the highest octet first |
| DhcpOptions.GetOptionLong | src/lwip/core/dhcp.c:1711-1720 | Reads the number the four octets stand for |
| DhcpOptions.DhcpMessage.OptionTrailer | src/lwip/core/dhcp.c:1574-1588 | The end mark after what was written, then padding to the minimum and to a multiple of four |
| DhcpOptions.DhcpMessage.Option | src/lwip/core/dhcp.c:1246-1252 | Kind and length after what was written |
| DhcpOptions.DhcpMessage.OptionByte | src/lwip/core/dhcp.c:1257-1262 | One octet after what was written |
| DhcpOptions.DhcpMessage.OptionShort | src/lwip/core/dhcp.c:1264-1270 | Two octets, high first |
| DhcpOptions.DhcpMessage.OptionLong | src/lwip/core/dhcp.c:1272-1280 | Four octets, high first |
| DhcpOptions.WireHolds | src/lwip/core/dhcp.c:1599-1630 | What was written is a sequence of options the reader understands |

## Left out

- The alternative builds of mem.c and memp.c (MEM_USE_POOLS, freeing from other contexts, overflow checks), `mem_calloc` and the MEM_STATS counters.
- Semaphores and interrupt protection inside the allocators: each call is one step.
- The bytes of a PBUF_RAM packet are an array of their own, not a part of the heap's byte array; the block they would fill is tracked by its offset and room. A pool element and the pbuf stored in it are two objects for the same memory.
- `pbuf_header` (the payload does not move), `pbuf_coalesce`, and freeing queued out-of-sequence segments when the pool runs dry.
- PbufCopy.Copy: totals are right; source and target records have bytes of their own; copying between overlapping buffers is undefined in the source too.
- EthTxSteps.TxInOrder: nothing is claimed after a write past a buffer, which the source leaves undefined.
- DnsNames.CompareName: what is read past the end of the array of the name.
- EthRxSteps.RxInOrder: frames spread over several Rx descriptors; a legal Ethernet frame fits one buffer. The driver's reads of DESC0 before the copy are one access. Which pool elements are free at a call is the driver's parameter there; `LowLevelInput` reads it from the pool.
- SelectProtocol.PerformKeeps: the set of sockets is fixed; sockets created after data has arrived for them, and closing a socket somebody waits for, are not modelled.
- FD sets are sets of descriptor numbers, not arrays of bits.
- Recv.Socket.RecvFrom: buffers from `netconn_recv` are not empty; the sender's address is not modelled.
- TcpWindow.RunKeeps: out-of-order queueing, retransmission and the rest of tcp_in.c and tcp_out.c appear only as receiving and sending steps.
- TcpPorts.Bind: a NULL address, which the TIME-WAIT check dereferences; remote addresses and SO_REUSEADDR.
- TcpLists.Tcp.FreePcb: closing a PCB that has a connection moves no list entry and is modelled by value only.
- `tcp_slowtmr`, application callbacks, ARP, IP and UDP.
- Timers.RunAccounts: handlers are numbers and are not run; the list of one task only.
- DnsTable.Receive: the parser's result for a message is a parameter; callbacks do not call the resolver again; names and addresses are not kept in the table.
- DnsNames.ParseName: malformed names, for which the readers can run past the message.
- DhcpOptions.GetOptionPtr: options in the sname and file fields, where the search goes on when an OVERLOAD option was met; options fields within 257 octets of 2^16, where the offset could wrap.
- HeapBlocks.Perform: giving back a pointer into the heap that is no live payload, which corrupts the heap, is outside the runs.
- Board and HAL code, the Remora communication classes, `api_lib.c`, `api_msg.c`, `netif.c`, `raw.c`, `stats.c`: dispatch or register writes, which would add only easy members.
