# A model of the memory, matrix and network experiments

A Dafny model of three parts of the repository, with proofs of what they compute.

- **Matrix kernels** (`ch4-cpu-memory-interactions`). `Scalars`, `Grids`, `MatMul`, `SharedOperands`, `BlockWalk`,
  `Transposes`, `TransposedMatMul`, `Overlays`, `SwappedDims`, `BlockLayout`, `BlockMatMul` and `Checksums` model
  the multiplications, the transposes, the block remap and its inverse, and the checksum. Elements are of an
  arbitrary type with a zero, an addition and a multiplication; every theorem names the laws it needs. A `Matrix`
  is, as in the source, a pointer and two dimensions passed by value, and a `MatrixVar` is a matrix passed by
  pointer. Matrices may share their elements, as they may in the source.
- **List builders** (`ch3-memory`). `Bits`, `Lfsr`, `Pigeonhole`, `LongList`, `LongListWalk`, `ExtrabitSizes`,
  `ExtrabitWalk`, `LinkedLists` and `ListWalkers` model the scrambling shift register, the builders that thread a
  list through a flat buffer, and the walkers. Pointers are byte offsets into a buffer of 8-byte words, so that
  nodes may share bytes.
- **Key-value server** (`ch6-network`). `Bytes`, `Logarithms`, `Framing`, `Connections`, `WriteRequests`,
  `Stores`, `Spinlocks`, `Servers` and `Answers` model the wire format, reads and writes that take as little as
  they like and may fail, the write request body, the lock run by one thread, a whole connection, and what is
  answered to the bytes of a request. `LockMachine`, `LockRuns` and `LockTraces` model the handler threads as a
  step relation in which every poll, test-and-set, reset, histogram load and store, map read and write, release
  and reply is a step; `ConcurrentServers` joins it to the handlers.

Where the code and its comments part, the model follows the code:

- BlockRemapMatMul computes a*b only when the result is empty, or it is square and the inner dimension is
  zero, equal to it, or the result is a single block. Its struct initialisers swap width and height
  (lines 193, 222 and 256), and every block index uses the width of the result. `RightShapeIff` is the exact
  condition; outside `BoundedShape` it leaves its buffers.
- TransposeMatMul leaves the transpose of a*b on squares (lines 172 and 175), although line 155 says c = a*b; on
  wide results its stores overlap, and on tall ones they leave the buffer.
- The simple kernels do not forbid that c shares its elements with an operand, and then meet their comment only
  for a single column or row.
- MakeLongList in scrambled order without the extra bit leaves the buffer unless the number of elements is a
  multiple of 256, or one more; a multiple less one also fits when the remainder of the buffer holds one more
  pair. With the extra bit even whole groups can leave it, as 256 elements at a stride of 16 do; `ExtrabitFits`
  is the exact condition. The associativity measurements run in the mode with the extra bit on 80 MiB, where
  their strides of 128 and 256 KiB do not fit.
- With the extra bit the list is shorter than the comment at lines 118-121 promises when a slot lies at 2^14, and
  also for strides that divide 32760, which the comment allows: there one node clears the pointer of node 4096.
- A buffer smaller than one stride still gets one node.
- A reset in AcquireSpinlock that finds the lock taken lets two threads hold it; it is the only step that does.
- The fallback loop of ilog2 is not the bit scan: it rounds up, and does not end above 2^31.
- rpc_recv_req does not look at the signature, and FromBody reads its header before it compares lengths.

## Model

| member | source | states |
|---|---|---|
| MatMul.SimpleMatMul | ch4-cpu-memory-interactions/interaction.cc:39-56 | c ends as the product of a and b, for every element type and every addition and multiplication; when c shares its elements with a or b, as the stores by rows that each see the earlier ones |
| MatMul.SimpleMatMulColumnwise | ch4-cpu-memory-interactions/interaction.cc:61-78 | exchanging the two outer loops leaves the same product, on every conforming rectangle and without any law; with shared elements only the order of the stores is another |
| MatMul.InPlaceIsProduct | ch4-cpu-memory-interactions/interaction.cc:39-78 | without sharing, the order of the stores makes no difference: every cell ends as the entry of the product |
| SharedOperands.SharedShapeIff | ch4-cpu-memory-interactions/interaction.cc:36-78 | with c sharing the elements of a, of b or of both, both simple kernels meet their comment c = a*b on every call exactly when c is empty, or has one column if a is shared and one row if b is |
| MatMul.ProductAt | ch4-cpu-memory-interactions/interaction.cc:45-51 | cell (row, col) of the product is the left-to-right sum of a[row][k] * b[k][col] from zero |
| MatMul.ProductSums | ch4-cpu-memory-interactions/interaction.cc:45-51 | cell by cell, for every addition and multiplication: from zero, the products of the elements of a row of a and a column of b, added one after the other in order of k |
| Transposes.Transposed | ch4-cpu-memory-interactions/interaction.cc:82-93 | a fresh matrix holding the transpose, for every width and height |
| Transposes.Transposed8x8 | ch4-cpu-memory-interactions/interaction.cc:99-123 | the same transpose, for sides divisible by eight |
| Transposes.Transposed8x8Flipped | ch4-cpu-memory-interactions/interaction.cc:129-153 | the same transpose, with each block walked by columns |
| Transposes.TransposeAt | ch4-cpu-memory-interactions/interaction.cc:86-90 | element (col, row) of the transpose is element (row, col) of the matrix |
| Transposes.TransposeCells | ch4-cpu-memory-interactions/interaction.cc:86-90 | the same in indices of the two buffers |
| Transposes.TransposeTwice | ch4-cpu-memory-interactions/interaction.cc:338-353 | transposing twice gives the matrix back, on every rectangle |
| Transposes.TransposeRearranges | ch4-cpu-memory-interactions/interaction.cc:82-93 | the transpose rearranges the elements by an explicit injective index list: none lost, none repeated |
| TransposedMatMul.TransposeMatMul | ch4-cpu-memory-interactions/interaction.cc:158-182 | on every shape it does not leave its buffers on: c ends as the transpose of what the column-by-column stores leave in cc, also when they overlap or c shares its elements with a or b |
| TransposedMatMul.StoredIs | ch4-cpu-memory-interactions/interaction.cc:165-174 | with a not shared, those stores are of the product's entries, a later one over an earlier |
| TransposedMatMul.StoredCell | ch4-cpu-memory-interactions/interaction.cc:165-174 | cell row * m + col of cc holds entry (row, col) of the product when no later column has a store that lands there |
| TransposedMatMul.LeftCell | ch4-cpu-memory-interactions/interaction.cc:175-178 | row y and column x of c is row x and column y of cc |
| TransposedMatMul.SquareLeft | ch4-cpu-memory-interactions/interaction.cc:165-180 | on squares c is left with the transpose of the product |
| TransposedMatMul.WideLeft | ch4-cpu-memory-interactions/interaction.cc:165-180 | on wide results some cell of c keeps what it held before the call |
| TransposedMatMul.TransposeMatMulMeetsComment | ch4-cpu-memory-interactions/interaction.cc:155-182 | for m by p times p by n operands the comment c = a*b is met on every call, inside the buffers, exactly when c is empty, or square with p zero |
| Overlays.OverlayLast | ch4-cpu-memory-interactions/interaction.cc:165-174 | of stores that land on one cell the last one stays |
| SwappedDims.InsideShapeIff | ch4-cpu-memory-interactions/interaction.cc:165-174 | the swapped-dimension stores stay in an m by n buffer exactly when m <= n or it is empty |
| SwappedDims.StoresFillIff | ch4-cpu-memory-interactions/interaction.cc:165-174 | they also fill the buffer exactly on squares and empty shapes |
| BlockLayout.BlockIndexOnto | ch4-cpu-memory-interactions/interaction.cc:195-211 | every index of the remapped array belongs to an element inside the matrix, which the inverse map names |
| BlockLayout.BlockIndexInto | ch4-cpu-memory-interactions/interaction.cc:195-211 | every element has a block-major index inside the array, from which its row and column are read back |
| BlockLayout.BlockRemap | ch4-cpu-memory-interactions/interaction.cc:188-214 | the fresh array holds the elements in block-major order and the result swaps the two dimensions |
| BlockLayout.RemapLayout | ch4-cpu-memory-interactions/interaction.cc:195-211 | element (y, x) goes to block y / 8, x / 8 of 64 elements and there to row y % 8 and column x % 8, all row by row |
| BlockLayout.BlockUnmap | ch4-cpu-memory-interactions/interaction.cc:217-242 | on every shape it does not leave its buffers on, the result is its array with the elements stored front to back at the exchanged indices; on squares that inverts the block-major order |
| BlockLayout.UnmapLayout | ch4-cpu-memory-interactions/interaction.cc:225-238 | element (y, x) is stored from that place to row y and column x of a buffer as wide as a is high |
| BlockLayout.SquareUnmapped | ch4-cpu-memory-interactions/interaction.cc:217-242 | on squares no two of those stores land on one cell |
| BlockLayout.UnmapRemap | ch4-cpu-memory-interactions/interaction.cc:188-242 | on squares, unmapping after remapping is the identity |
| BlockLayout.RemapUnmap | ch4-cpu-memory-interactions/interaction.cc:188-242 | on squares, remapping after unmapping is the identity |
| BlockLayout.RemapRearranges | ch4-cpu-memory-interactions/interaction.cc:188-214 | the remap rearranges the elements by an explicit injective index list, on every rectangle |
| BlockMatMul.MultiplyBlock | ch4-cpu-memory-interactions/interaction.cc:273-289 | adds the product of two 8x8 blocks to one block of cc and changes nothing else |
| BlockMatMul.ProduceBlocks | ch4-cpu-memory-interactions/interaction.cc:257-292 | from any contents, cc ends as the block-major result of the five loops |
| BlockMatMul.BlockRemapMatMul | ch4-cpu-memory-interactions/interaction.cc:247-302 | the whole kernel on every bounded shape, also when c shares its elements with a or b: it leaves the unmapped block result in a fresh buffer and keeps c's dimensions |
| Scalars.Regroup | ch4-cpu-memory-interactions/interaction.cc:277-287 | summing in eights and then summing the sums is the plain sum, given associativity and a right zero |
| BlockMatMul.BlockResultIsProduct | ch4-cpu-memory-interactions/interaction.cc:247-302 | on every right shape the kernel's result is the simple kernel's product, given only an associative addition with a right zero |
| BlockMatMul.BlockCell | ch4-cpu-memory-interactions/interaction.cc:257-299 | on every square bounded shape, right or wrong: a cell is the sum over k of the sums of eight products of the two blocks that the kernel reads |
| BlockMatMul.BoundedShapeIff | ch4-cpu-memory-interactions/interaction.cc:247-302 | the shapes on which every block read and every store of the unmap is inside its buffer, counted in blocks: exactly BoundedShape |
| BlockMatMul.WrongShape | ch4-cpu-memory-interactions/interaction.cc:265-275 | on a square bounded shape that is not right, two operands with a single one each give a wrong product |
| BlockMatMul.UnsetShape | ch4-cpu-memory-interactions/interaction.cc:271-299 | with an inner dimension of zero and fewer columns than rows, a cell of the fresh buffer is never set |
| BlockMatMul.RightShapeIff | ch4-cpu-memory-interactions/interaction.cc:244-302 | the kernel stays inside its buffers and meets the comment c = a*b for every pair of integer operands of a shape exactly when the shape is right |
| Checksums.Checksum | ch4-cpu-memory-interactions/interaction.cc:28-34 | the left-to-right sum of the elements |
| Scalars.FoldAccumulates | ch4-cpu-memory-interactions/interaction.cc:28-34 | the sum is where an accumulator ends that starts at the given value and takes each term on the right |
| Checksums.ChecksumConserved | ch4-cpu-memory-interactions/interaction.cc:28-34 | transposing and remapping leave an exact commutative checksum unchanged |
| Checksums.UnmapChecksum | ch4-cpu-memory-interactions/interaction.cc:217-242 | so does unmapping |
| Checksums.ChecksumsAgree | ch4-cpu-memory-interactions/interaction.cc:389-396 | the checksum after TransposeMatMul equals the one after SimpleMatMul, although the matrices are transposes |
| Lfsr.Period | ch3-memory/polynomial.h:10-12 | POLYSHIFT8 started at 0xff returns to 0xff after 255 shifts and not before |
| Lfsr.ShiftIs | ch3-memory/polynomial.h:10-11 | a shift drops the top bit and, if it was set, turns the bits of 0x1d |
| Lfsr.TableValues | ch3-memory/memory.cc:137 | the first four and the last three entries of every such table are those of the comment |
| Lfsr.MixedInjective | ch3-memory/memory.cc:137-146 | the 256 entries of mixedup are distinct |
| LongListWalk.MixedOnto | ch3-memory/memory.cc:137-146 | and take every byte value |
| LongListWalk.ScrambleBijection | ch3-memory/memory.cc:155 | the scrambled element map is a bijection that keeps every group of 256 |
| Bits.ByteMasks | ch3-memory/memory.cc:155 | the two masks of line 155 split a non-negative int into its group and its low byte |
| Bits.XorBit14 | ch3-memory/memory.cc:156 | xor with 1 << 14 adds or takes away bit 14 |
| LongList.MakeMixedup | ch3-memory/memory.cc:137-146 | the table starts 0, 0xff, and each later entry is POLYSHIFT8 of the one before |
| LongList.MakeLongList | ch3-memory/memory.cc:135-166 | for all arguments whose nodes fit, the buffer ends as the nodes linked in order, each later write over the earlier ones |
| LongListWalk.NodeOffsets | ch3-memory/memory.cc:149-156 | the nodes' offsets in numbers: the root's zero, and each other one its index, or in scrambled order its group and the table's entry for its low byte, times the stride, with bit 14 turned when the extra bit is on |
| LongListWalk.NextInGroup | ch3-memory/memory.cc:155 | the scrambled order in a group: its first element, its last, then each time the shift of the low byte before |
| LongList.BuiltWords | ch3-memory/memory.cc:157-163 | a node that no later one overwrites ends with the address of the next node in its first word, or NULL, and zero in its second |
| LongList.BuiltElsewhere | ch3-memory/memory.cc:153-163 | words that no node covers are unchanged |
| LongList.BuiltWalks | ch3-memory/memory.cc:153-163 | nodes with distinct offsets from some index on are walked from there, in order, to the first one whose next a later node's data clears, or the last, and then to NULL |
| LongListWalk.ListWalk | ch3-memory/memory.cc:118-166 | for every stride the comment allows and every size that fits, the walk from the root is acyclic, ends in NULL, and meets the nodes from the last that overwrites the root to the first whose pointer is cleared |
| LongListWalk.LinearOrder | ch3-memory/memory.cc:127 | with makelinear the nodes fit and are slots 0, 1, 2, ... of the stride, as many as the comment promises |
| LongListWalk.ScrambledVisitsAll | ch3-memory/memory.cc:118-166 | scrambled without the extra bit, the walk meets as many distinct slots as promised and then NULL: every slot below n, but that a last group one short has slot n in place of one |
| LongListWalk.ScrambledFitsIff | ch3-memory/memory.cc:149-160 | exactly the sizes for which the scrambled nodes stay in the buffer: an incomplete last group runs past the end |
| ExtrabitSizes.ExtrabitFitsIff | ch3-memory/memory.cc:149-160 | exactly the sizes and strides for which the scrambled nodes stay in the buffer with the extra bit: two slots near its end to look at, and the elements of an incomplete last group |
| ExtrabitSizes.ClearIff | ch3-memory/memory.cc:151-156 | for whole groups, looking at the first slots of two windows near the end decides for all elements |
| ExtrabitSizes.CoarseStrideFitsIff | ch3-memory/memory.cc:338-338 | for strides of whole 32K blocks: whole groups, one element more, or one less with 16400 bytes left over |
| ExtrabitSizes.AssocStrides | ch3-memory/memory.cc:416-421 | in the 80 MiB buffer the strides of 32 and 64 KiB fit; those of 128 and 256 KiB do not |
| ExtrabitSizes.WholeBlocksFit | ch3-memory/memory.cc:151-160 | with the extra bit and a stride divisible by 16, whole groups in whole 32K blocks keep every node in the buffer |
| ExtrabitWalk.ExtrabitEntry | ch3-memory/memory.cc:151-160 | the root is overwritten exactly when the list comes to a slot at 2^14, and last by that step |
| ExtrabitWalk.ExtrabitCut | ch3-memory/memory.cc:154-163 | a pointer is cleared exactly when the stride divides 32760 and the list comes to the slot that far after slot 4096; the walk then ends at node 4096 |
| ExtrabitWalk.SharedIff | ch3-memory/memory.cc:151-160 | for whole groups, or one element more, both can be told from the counts |
| ExtrabitWalk.ExtrabitLength | ch3-memory/memory.cc:118-166 | for every stride and every size that fits, the exact number of nodes the walk meets; it is the promised n exactly when neither overlap occurs |
| ExtrabitWalk.StrideOf24 | ch3-memory/memory.cc:118-166 | with a stride of 24, a list of 8192 elements that fits its buffer ends after 4097 |
| ListWalkers.WalkUnique | ch3-memory/memory.cc:341-346 | a walk that ends in NULL is the only one from its pointer |
| LongList.PastTheEnd | ch3-memory/memory.cc:341-346 | following pointers past NULL faults |
| ListWalkers.AssocRead | ch3-memory/memory.cc:341-346 | returns the pointer assoc steps on, whenever no step faults |
| ListWalkers.ScrambledReads | ch3-memory/memory.cc:264-275 | follows n_reads rounded up to a multiple of four pointers, whenever none faults |
| LinkedLists.MakeLinkedList | ch3-memory/memory.cc:41-54 | the root's self-link of the first turn is repaired, and the walk meets the linear offsets and then NULL; data words are untouched |
| LinkedLists.LinearOffsetsAre | ch3-memory/memory.cc:41-54 | the linear offsets are 0, 1, 2, ... strides of whole pairs, as many as fit and at least one |
| Spinlocks.LockAndHist.AcquireSpinlock | ch6-network/spinlock.cc:11-33 | run alone it ends holding the lock after no nonzero poll or exactly 100,000,001, without int32 overflow, and returns 0 |
| Spinlocks.LockAndHist.Enter | ch6-network/spinlock.cc:55-59 | acquires the lock and increments bucket 0 of the histogram, modulo 2^32, and no other |
| Logarithms.FloorLg | ch6-network/spinlock.cc:41-50 | an index below 32, which for every nonzero word is that of its highest bit |
| Logarithms.ILog2Fallback | ch6-network/rpc.cc:113-119 | for x up to 2^31, the least r with x <= 2^r |
| Logarithms.FallbackEndsIff | ch6-network/rpc.cc:113-119 | the fallback loop ends exactly for x up to 2^31: the 32-bit power wraps to zero first |
| Logarithms.FallbackAgainstBitScan | ch6-network/rpc.cc:104-121 | the two forms of ilog2 agree exactly on powers of two; elsewhere the fallback is one greater |
| LockMachine.ExclusiveKept | ch6-network/spinlock.cc:11-38 | every step but a reset of a taken lock keeps at most one holder and the lock byte nonzero exactly when there is one |
| LockMachine.InvKept | ch6-network/server.cc:80-113 | every step but a reset of a taken lock keeps what each thread relies on: map, histogram, tickets and results |
| LockMachine.AllClaimedKept | ch6-network/server.cc:80-113 | every step keeps that each operation in the order belongs to a reply or to a thread at work on it |
| LockRuns.MutualExclusion | ch6-network/spinlock.cc:11-63 | in every state reached by a run whose resets all find the lock free, at most one thread holds the lock |
| LockRuns.ExclusiveIff | ch6-network/spinlock.cc:11-63 | a run from the start keeps mutual exclusion in all its states exactly when no reset in it finds the lock taken |
| LockRuns.ResetBreaksIff | ch6-network/spinlock.cc:19-22 | a step breaks mutual exclusion exactly when it is a reset of a lock that is taken |
| LockRuns.TwoHolders | ch6-network/spinlock.cc:19-22 | a run that trips the reset, after 100,000,001 polls, in which two threads hold the lock |
| LockRuns.NoLostUpdates | ch6-network/spinlock.cc:55-59 | with the increment split into load and store, bucket 0 is its initial value plus the steps of the run that took the lock, modulo 2^32, but for one whose update is not yet stored; the other buckets never change |
| LockRuns.OrderIsAcquired | ch6-network/spinlock.cc:30-38 | the order of the operations is that of the steps that found the lock free and took it |
| LockTraces.SoloOperation | ch6-network/server.cc:80-113 | an operation that a thread takes up and performs while the others stand still: a write binds an unbound key, a read looks its key up, the histogram counts one, the lock ends free, and the reply says all this |
| LockTraces.ResetsWhen | ch6-network/spinlock.cc:15-22 | a thread sets out to reset the lock exactly at a poll that finds it taken and is at least the 100,000,001st since it took up its operation |
| LockTraces.BeginFollowed | ch6-network/server.cc:141-182 | each event that takes up an operation is followed by the work on it or by its reply, which records how many replies of all threads had been sent |
| LockTraces.RealTime | ch6-network/server.cc:80-113 | what had been replied to when an operation was taken up comes before it in the order, on whatever threads |
| LockRuns.Linearizable | ch6-network/server.cc:80-113 | in every run whose resets all find the lock free, all results are those of a one-at-a-time server in lock-acquisition order, which respects real time and holds nothing that no thread issued, and the map is what that server's would be |
| LockRuns.ProgramOrder | ch6-network/server.cc:147-182 | a thread's operation begins after all of that thread's earlier replies |
| LockRuns.EveryOperationAnswered | ch6-network/server.cc:147-182 | the operations a thread took up are those it answered, in order, and at most one more |
| LockRuns.EveryOrderedBegan | ch6-network/server.cc:80-113 | each operation in the order is one that some thread took up |
| LockRuns.BindingsLast | ch6-network/server.cc:80-83 | over every such run, a bound key keeps its value and none is lost |
| Stores.FirstWriteWins | ch6-network/server.cc:80-83 | emplace never overwrites: a find returns the value of the earliest write of its key |
| Stores.OutcomeIs | ch6-network/server.cc:80-113 | on a store that a list of operations made: a write is acknowledged; a find returns the value of the first write of its key, or that there is none |
| ConcurrentServers.ConnectionInGlobalOrder | ch6-network/server.cc:141-186 | if a thread takes its operations from the requests of a byte stream, then whatever the other threads do its responses are, one by one, those of a one-connection server whose store is what the operations ordered before left, at places that rise along the stream; they stop only at a request whose operation has no result yet |
| ConcurrentServers.ReadValuesWritten | ch6-network/server.cc:63-134 | a value that a read found is one that some connection took up to write under that key |
| ConcurrentServers.ConnectionsInOrder | ch6-network/server.cc:141-182 | the global order extends the order of each connection |
| ConcurrentServers.AcknowledgedWriteVisible | ch6-network/server.cc:63-134 | a read that began after a write was acknowledged finds the key |
| ConcurrentServers.ReadsAgree | ch6-network/server.cc:95-134 | all reads that find a key return the same value |
| Framing.MarkLayout | ch6-network/rpc.h:27-36 | the four words of the mark in order, little-endian |
| Framing.HeaderLayout | ch6-network/rpc.h:53-91 | every header field at its offset in the 72 bytes |
| Bytes.WordBytes | ch6-network/rpc.h:27-36 | a four-byte word, least significant byte first as the host has it, or most significant first as htonl does |
| Framing.MessageLayout | ch6-network/rpc.cc:124-174 | the mark comes first, then the header, then the body |
| Framing.HeaderRoundTrip | ch6-network/rpc.h:53-91 | decoding an encoded header gives it back |
| Framing.ReceiveEncoded | ch6-network/rpc.cc:209-227 | a framed message is received whole and exactly its bytes are consumed |
| Framing.ReceivedEncodes | ch6-network/rpc.cc:209-227 | whatever is received is what its bytes encode, and its mark is true |
| Framing.ReceiveAllEncoded | ch6-network/rpc.cc:209-227 | k receives on k concatenated messages return exactly those and leave the rest |
| Connections.Connection.Readn | ch6-network/network.cc:121-131 | however read splits the stream, the buffer gets its next bytes, or the stream was too short; it terminates |
| Connections.Connection.ReadMessage | ch6-network/rpc.cc:209-222 | succeeds exactly when the stream holds a whole message with header length 72, and then consumes just that |
| Connections.Connection.RecvReq | ch6-network/rpc.cc:209-227 | the message with T2 stamped |
| Connections.Connection.RecvResp | ch6-network/rpc.cc:229-247 | the message with T4 stamped |
| Connections.Connection.SendReq | ch6-network/rpc.cc:124-174 | appends one encoded request with the next id, which wraps at 2^32, or where a write falls short a part of it; success only when all was written |
| Connections.Connection.SendResp | ch6-network/rpc.cc:176-207 | appends one encoded response, or where a write falls short a part of it |
| Connections.LengthLogIs | ch6-network/rpc.cc:150-151 | the length logarithm is the floor of the logarithm of the whole message's length modulo 2^32, and undefined when that is zero |
| Connections.SendRequests | ch6-network/rpc.cc:124-174 | k calls write k encoded requests under consecutive ids modulo 2^32 |
| Connections.RequestFields | ch6-network/rpc.cc:132-159 | every field of a request: signature and lengths, id, parent, T1 and zero times, the four addresses and ports, type and status, and the name cut or padded to eight characters |
| Connections.RecvRequests | ch6-network/rpc.cc:209-227 | k calls on k encoded messages, read in any pieces, return exactly those with T2 stamped, and leave what follows |
| Connections.RequestsRoundTrip | ch6-network/rpc.cc:124-227 | k requests sent on one end and read in any pieces on the other arrive in order with every field as RequestFields has it and T2 stamped, and later bytes stay unread |
| WriteRequests.Make | ch6-network/my_rpc.cc:7-23 | NULL exactly for values over 5*256*1024 bytes, otherwise a fresh buffer with the request's layout |
| WriteRequests.LayoutBytes | ch6-network/my_rpc.cc:14-21 | the request byte by byte: the key length, the value length most significant byte first at offset 4, the key at 8 and the value after it |
| WriteRequests.FromBodyIff | ch6-network/my_rpc.cc:25-31 | a body is accepted exactly when it has a header and its lengths add up, and then key and value are the rest of it |
| WriteRequests.FromBodyBytes | ch6-network/my_rpc.cc:25-51 | the outcome of parsing as a formula in the bytes |
| WriteRequests.BeyondIgnored | ch6-network/my_rpc.cc:25-28 | the header bytes read beyond a short body never change the outcome |
| WriteRequests.LayoutRoundTrip | ch6-network/my_rpc.cc:7-31 | every request made is accepted and gives back its key and value |
| WriteRequests.FromBodyLayout | ch6-network/my_rpc.cc:25-51 | every accepted body is the layout of the key and value it parses to |
| Servers.SameNameIff | ch6-network/server.cc:158-164 | strncmp with a method name holds exactly when the eight bytes start with the name and its zero |
| Answers.CommandSpelt | ch6-network/server.cc:158-172 | the commands are the names ping, write, read and quit, spelt out and ended by a zero |
| Answers.OperationIs | ch6-network/server.cc:63-113 | a well-formed write emplaces the key and the value in its body, a read looks its body up, and nothing else touches the store |
| Answers.ReadAnswered | ch6-network/server.cc:95-134 | a read is answered with the value of its key and status 0, or with nothing and status 2 |
| Answers.WriteAnswered | ch6-network/server.cc:63-93 | a write binds the key in its body to the value in it unless the key is bound, with status 0; if the lengths do not add up it does nothing, with status 1 |
| Answers.OthersAnswered | ch6-network/server.cc:47-61 | a ping is answered with its own body, a quit with nothing, both with status 0 |
| Answers.LayoutHolds | ch6-network/my_rpc.cc:7-51 | the bodies that Make lays out are well-formed and hold the key and the value |
| Answers.ReadsFirstWrite | ch6-network/server.cc:63-134 | on a server that started empty, a read is answered with the value of the first earlier write of its key, or with status 2 if there is none |
| Servers.ClientNames | ch6-network/rpc.cc:154-159 | the names as strncpy writes them are recognised |
| Servers.Server.HandlePing | ch6-network/server.cc:47-61 | echoes the body with status 0 |
| Servers.Server.HandleWrite | ch6-network/server.cc:63-93 | status 1 and nothing else for a malformed body; otherwise the key is bound to the value unless it is bound, status 0, one more in the histogram; the lock is free again |
| Servers.Server.HandleRead | ch6-network/server.cc:95-134 | the value with status 0, or nothing with status 2; the map is unchanged, one more in the histogram, and the lock free again |
| Servers.Server.HandleRpcConn | ch6-network/server.cc:141-186 | for every stream and every way read splits it, the bytes written, the map and the action are those of Serve, and the histogram counts the operations on the store; when reads fail early, those of a first part of the requests |
| Servers.ServeOrdinary | ch6-network/server.cc:147-182 | ordinary requests are answered one by one and serving goes on with what follows |
| Servers.WholeConnection | ch6-network/server.cc:141-186 | one response per request in order, then the loop stops at quit, which it answers, or silently at an unknown method, a malformed message or the end |
| Servers.EveryStream | ch6-network/server.cc:141-186 | every stream is such requests and such an end, so this covers every connection |
| Servers.ServeAnswers | ch6-network/server.cc:141-186 | what is served is the answers to the answered requests of the stream |
| Servers.ResponseAt | ch6-network/server.cc:147-182 | the i-th response is the answer of a fold over the requests before it |
| Servers.ResponseFields | ch6-network/rpc.cc:184-194 | a response keeps every field of its request but the data length, T2, T3, the length logarithm, the type and the status |
| Servers.StoreIsReplay | ch6-network/server.cc:80-83 | what a connection does to the map is the replay of its requests' operations |
| Servers.ResponsesArrive | ch6-network/rpc.cc:229-247 | the client receives exactly the responses |

## Left out

- Servers.Server.HandleRpcConn: says what is written only for connections whose writes take all they are given; the handlers ignore short writes, after which the stream is no longer framed.
- Connections.SendRequests: is for connections whose writes take all they are given; SendReq and SendResp also cover short writes.
- gettimeofday is an arbitrary sequence of times and does not fail.
- Memory the source leaves unset (checksum, padding, the response length of a request, bytes beyond a short body, the bit scan of zero) is arbitrary and carried through.
- Calls that leave a buffer are excluded by what is required (`Fits`, `InsideShape`, `BoundedShape`), each shown to be exactly the calls that do not.
- The C++ memory model: every access to the lock byte, the histogram and the map is one sequentially consistent step. The model's wait counter is unbounded, so that of a waiter that keeps losing races after its first reset does not wrap.
- Floating-point rounding: the laws of addition are stated where they are used, and doubles do not satisfy associativity.
- Widths: sizes and indices of size_t are unbounded, as is the byte arithmetic of MakeLongList beyond its 2^31 size limit.
- NaiveTiming, LinearTiming, ScrambledTiming and all cache, clock and counter measurements are hardware observations.
- Socket set-up, accept and connect, threads, argument parsing, printing, logging and freeing memory.
- MakeMatrix, which fills a fixed 1024 by 1024 square, and the client program.
