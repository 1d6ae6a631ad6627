# Models of seven C programs

This project models seven small C programs and proves what each of them is for. Every program
has a specification made of values (sequences, maps, functions) about which the theorems are
proved, and, because all seven work by changing memory step by step, methods with the program's
own loops over arrays and objects that are proved against that specification.

| program | specification | implementation |
|---|---|---|
| First-fit heap allocator with splitting and two-sided coalescing | `HeapBlocks` | `HeapAllocator` (header words in `HeapMemory`) |
| Bytecode virtual machine | `VmMachine`, `VmTheorems`, `VmExpressions` | `Vm` |
| Chained hash table | `HashModel` | `HashTable` (linked nodes in `HashChains`) |
| CRC-8 (the parameters of section 5.4 of the SMBus Specification 2.0) | `Crc8`, `Crc8Division`, `Crc8Detection` | `Crc8.Compute`, `Crc8.Verify` |
| Ring buffer between an interrupt handler and the main loop | `RingBuffer`, `RingBufferInterleaved` | `RingBuffer.CircularBuffer` |
| UART frame parser | `UartFrames`, `UartStream` | `UartParser` |
| Run-length encoder | `RunLength`, `RunLengthInPlace` | `RunLength.Encode` |

## Conventions

- Heap: the arena is 4096 bytes of 8-byte words, addressed by byte offsets that are multiples of
  8. A header has the 64-bit layout (size, free, next: 24 bytes); pointers are offsets and NULL
  is -1. `size_t` arithmetic wraps at 2^64. The 4-byte `free` field and the 4 bytes of padding
  after it are one word. `my_free` takes NULL or a live pointer.
- Virtual machine: the C code leaves signed overflow in ADD, SUB and MUL undefined. The model wraps
  to 32 bits, and exact values are claimed only when every evaluated value fits an `int32_t`.
  Stack and output hold the values in use; the code is a byte string with its own length.
- Hash table: any capacity, but only a table with buckets can be used. A key is a string of nonzero
  signed characters, a value an integer with 0 for NULL. A NULL stored under a key is therefore
  answered like an absent key, as in the program. The outcomes of the two `malloc` calls of an
  insertion, and of the `calloc` of the buckets, are parameters. `free` is a method that may be
  called only once for each block; `ht_destroy` reads links and frees key copies only through
  methods that demand a node not yet freed.
- CRC-8 and UART: a byte is eight booleans, most significant first. The loop counter of `crc8` is
  a `uint8_t`, so the loop ends exactly for at most 255 bytes (`Crc8.LoopEnds`); the theorems hold
  at every length.
- Ring buffer: any BUFFER_SIZE of at least 2. In `RingBufferInterleaved` the producer and the
  consumer each do one access to shared memory at a time, in any order between them. A refused
  push or an accepted one takes effect when it reads `read_idx` or writes `write_idx`; a pop when it
  reads `write_idx` (refused) or writes `read_idx`. The reads in `cb_pop`'s comparison are taken
  left to right, and `cb_push` reads its own index again before the store, as the code does.
- Run-length encoder: the first byte is read before the length is looked at, so there has to be
  one. The output index is a `uint8_t` and wraps. A length larger than 255 can therefore never be
  returned: `RunLength.LengthIsRight` says exactly when the result is right and
  `RunLength.WrapsAt128Pairs` names an input for which it is not. The output may be the input
  buffer; `RunLengthInPlace` says exactly when that works.

## Model

| member | source | states |
|---|---|---|
| `HeapBlocks.EveryRunIsSound` | intermediate projects/heap_allocator.c:18-86 | After `heap_init`, any sequence of allocations (any size), frees (NULL or a live pointer) and stores into live payloads leaves the list address-ordered, gapless over all 4096 bytes, 8-aligned, without two free neighbours; headers plus payloads add up to 4096 |
| `HeapBlocks.RunKeepsInv` | intermediate projects/heap_allocator.c:25-86 | The same from every list that satisfies the invariant, not only the initial one |
| `HeapBlocks.NothingLost` | intermediate projects/heap_allocator.c:9-13 | In a tiled arena headers and payloads account for all 4096 bytes |
| `HeapBlocks.LivePayloadsDisjoint` | intermediate projects/heap_allocator.c:43-55 | A live payload starts 8-aligned inside the arena and shares no byte with the header or payload of any other block; different live blocks have different pointers |
| `HeapBlocks.RoundedStillFits` | intermediate projects/heap_allocator.c:28-41 | A block that passes the fit test on the unrounded size also holds the rounded size: neither the rounding nor the subtraction wraps at 64 bits |
| `HeapBlocks.MallocIsFirstFit` | intermediate projects/heap_allocator.c:25-36 | NULL exactly when no free block is as large as the request, and then nothing changes; otherwise the pointer is that of the lowest-addressed free block that is large enough |
| `HeapBlocks.MallocGrants` | intermediate projects/heap_allocator.c:38-55 | A granted block is live and has between `size` and `size + 47` payload bytes |
| `HeapBlocks.MallocGrantsExactly` | intermediate projects/heap_allocator.c:38-55 | With `a` the request rounded up to a multiple of 8: a block with more than 40 bytes left over is granted with exactly `a` bytes, any other whole, and no other block becomes or ceases to be live |
| `HeapBlocks.TakeKeepsInv` | intermediate projects/heap_allocator.c:38-54 | Taking a fitting block, split or whole, keeps the arena tiled and coalesced |
| `HeapBlocks.TakeAddsOneLiveBlock` | intermediate projects/heap_allocator.c:38-54 | The live blocks afterwards are those before and the block granted, nothing else |
| `HeapBlocks.ReleaseKeepsInv` | intermediate projects/heap_allocator.c:64-85 | One join with the successor and one with the predecessor are enough to leave no two free neighbours |
| `HeapBlocks.ReleaseDropsOneLiveBlock` | intermediate projects/heap_allocator.c:64-85 | The live blocks afterwards are those before except the freed one, with offsets and sizes unchanged |
| `HeapBlocks.LiveBlockStays` | intermediate projects/heap_allocator.c:25-86 | No call other than its own free moves, resizes or frees a live block |
| `HeapBlocks.LiveAfter` | intermediate projects/heap_allocator.c:34-86 | A failed allocation, `my_free(NULL)` and a store leave the list as it is; freeing a live pointer takes exactly that block out of the live ones |
| `HeapBlocks.LiveBlocksDetermineList` | intermediate projects/heap_allocator.c:25-86 | Two sound lists with the same live blocks are equal, so the invariant and the live blocks after a call determine its whole effect |
| `HeapBlocks.PayloadWords` | intermediate projects/heap_allocator.c:43-55 | A payload is every word from behind its header to the next block |
| `HeapBlocks.FreeUndoesMalloc` | intermediate projects/heap_allocator.c:25-86 | Freeing the pointer a successful allocation just returned is legal and restores the exact previous list |
| `HeapBlocks.InitialOrLive` | intermediate projects/heap_allocator.c:18-23 | The only sound list without a live pointer is the one `heap_init` makes |
| `HeapBlocks.FreeingAllRestoresInitial` | intermediate projects/heap_allocator.c:58-86 | Freeing every live pointer once, in any order, is legal throughout and ends in the single 4072-byte free block |
| `HeapMemory.SplitRepresents` | intermediate projects/heap_allocator.c:43-52 | Writing the new header first and the shortened one second makes the header words represent the split list |
| `HeapMemory.JoinRepresents` | intermediate projects/heap_allocator.c:67-70 | Rewriting only the absorbing header makes the header words represent the joined list |
| `HeapAllocator.Heap.constructor` | intermediate projects/heap_allocator.c:18-23 | The arena's headers represent one free block of 4072 bytes |
| `HeapAllocator.Heap.Search` | intermediate projects/heap_allocator.c:26-32 | The pointer walk ends at the first block that fits, or at NULL |
| `HeapAllocator.Heap.TakeBlock` | intermediate projects/heap_allocator.c:38-54 | The header writes represent the list with the block taken, and touch no word outside that block |
| `HeapAllocator.Heap.Malloc` | intermediate projects/heap_allocator.c:25-56 | Over the arena: list and pointer are those of the specification, and no word of any live payload changes |
| `HeapAllocator.Heap.MarkFree` | intermediate projects/heap_allocator.c:64-65 | Clearing the block for reuse changes one word and marks that block free in the list |
| `HeapAllocator.Heap.JoinWithNext` | intermediate projects/heap_allocator.c:65-70 | Marking and joining forward touches only the freed block's header |
| `HeapAllocator.Heap.FindPrevious` | intermediate projects/heap_allocator.c:72-80 | The walk ends with the block before the freed one, or NULL when there is none |
| `HeapAllocator.Heap.Free` | intermediate projects/heap_allocator.c:58-86 | Over the arena: NULL changes neither list nor memory, a live pointer gives the specified list, and no word of any other live payload changes |
| `HeapAllocator.Heap.Replay` | intermediate projects/heap_allocator.c:18-86 | Through any legal sequence of calls a live block that is neither freed nor stored into stays live and keeps every word it held |
| `VmMachine.StepIsSafe` | intermediate projects/vm_sim/vm.c:117-287 | For every byte string: `sp <= 16`, `out_len <= 64` and `pc <= code_len` are kept, the output only grows by appending, and a step that is not VM_OK leaves stack and output unchanged |
| `VmMachine.SimpleInstructions` | intermediate projects/vm_sim/vm.c:225-287 | POP, DUP, PRINT, HALT and bytes that are no instruction, by their codes: status, stack, output and `pc` in every case, errors included |
| `VmMachine.ArithmeticInstructions` | intermediate projects/vm_sim/vm.c:137-177 | ADD, SUB and MUL, by their codes: an error still moves `pc`; otherwise the two top values become their sum, difference (lower minus upper) or product whenever that fits `int32_t` |
| `VmMachine.OperandInstructions` | intermediate projects/vm_sim/vm.c:200-242 | PUSH pushes the operand as a signed byte; JMP and JZ check the target first; a missing operand or a `pc` beyond the code changes nothing; status and `pc` in every case |
| `VmMachine.RunIsSafe` | intermediate projects/vm_sim/vm.c:290-297 | The same bounds over whole runs |
| `VmMachine.RunSplits` | intermediate projects/vm_sim/vm.c:290-297 | A run of m + n steps is a run of m steps continued for n |
| `VmMachine.StoppedStays` | intermediate projects/vm_sim/vm.c:290-297 | The result of a run that stopped does not depend on how many more steps were allowed |
| `Vm.Machine.constructor` | intermediate projects/vm_sim/vm.c:102-115 | The machine starts at offset 0 with empty stack and output, and all 16 and 64 slots zeroed |
| `Vm.Machine.Push` | intermediate projects/vm_sim/vm.c:117-125 | Over the array: fails exactly at 16 values, otherwise appends |
| `Vm.Machine.Pop` | intermediate projects/vm_sim/vm.c:127-135 | Over the array: fails exactly when empty, and then leaves `*out` alone; otherwise removes and returns the top |
| `Vm.Machine.Arithmetic` | intermediate projects/vm_sim/vm.c:137-177 | Two pops and a push replace the two top values by the result in source order; with fewer than two nothing changes |
| `Vm.Machine.Print` | intermediate projects/vm_sim/vm.c:179-191 | The top value moves to the end of the output; an empty stack is reported before a full output, and both change nothing |
| `Vm.Machine.Dup` | intermediate projects/vm_sim/vm.c:193-198 | Doubles the top; empty and full stacks are reported differently and change nothing |
| `Vm.Machine.Jump` | intermediate projects/vm_sim/vm.c:200-206 | Sets `pc` exactly when the target is inside the code |
| `Vm.Machine.JumpIfZero` | intermediate projects/vm_sim/vm.c:208-223 | The target is checked first, even when the jump is not taken; then the value is consumed whichever way control goes |
| `Vm.Machine.Step` | intermediate projects/vm_sim/vm.c:225-287 | One step over the arrays refines the pure step on (pc, stack, output), so slots above `sp` and `out_len` never matter |
| `Vm.Machine.Run` | intermediate projects/vm_sim/vm.c:290-297 | `vm_run` returns the first status that is not VM_OK, in the state of the pure run |
| `VmTheorems.TypedProgramsKeepTheirDepth` | intermediate projects/vm_sim/vm.c:117-297 | When every reachable offset has a depth consistent with each opcode's effect and successors, no run from `vm_init` ends in a stack error and `sp` is the assigned depth at every step |
| `VmTheorems.RunFollowsTyping` | intermediate projects/vm_sim/vm.c:225-297 | The same from any state that matches the assignment, stack contents being arbitrary |
| `VmTheorems.TypedExactly` | intermediate projects/vm_sim/vm.c:117-287 | A depth assignment passes the checks if and only if every state that matches it steps to one that matches, or stops without a stack error |
| `VmTheorems.ClosedExactly` | intermediate projects/vm_sim/vm.c:229-285 | Of a typed program, closed means exactly that no matching state meets a bad opcode or leaves the code |
| `VmTheorems.ForwardProgramsStop` | intermediate projects/vm_sim/vm.c:200-297 | When every byte that could act as a jump is followed by a larger offset than its own, a run stops after at most `code_len` VM_OK steps |
| `VmTheorems.ForwardRunsStop` | intermediate projects/vm_sim/vm.c:200-297 | The same bound, `code_len - pc`, from any state, also inside operand bytes |
| `VmTheorems.CertifiedProgramsHalt` | intermediate projects/vm_sim/vm.c:225-297 | Typed, closed and forward-jumping programs end in VM_HALTED, unless they print more than 64 values |
| `VmTheorems.AppendingIsInvisible` | intermediate projects/vm_sim/vm.c:225-297 | A run that does not leave the code has the same status, pc, stack and output after any bytes are appended to the program |
| `VmExpressions.Evaluates` | intermediate projects/vm_sim/vm.c:117-287 | The code of any expression (constants, +, -, *, squaring, discarding, conditionals), anywhere in a program, with enough free stack and all values in int32, runs VM_OK, pushes exactly the value, leaves the lower stack and the output alone, and ends just behind itself |
| `VmExpressions.Overflows` | intermediate projects/vm_sim/vm.c:117-287 | With less free stack than that, the same code ends in a stack overflow: the stack need is exact |
| `VmExpressions.ProgramPrintsItsValue` | intermediate projects/vm_sim/vm.c:225-297 | From `vm_init` the compiled program outputs exactly the expression's value and halts, when it needs at most 16 slots |
| `VmExpressions.ProgramOverflows` | intermediate projects/vm_sim/vm.c:225-297 | And ends in a stack overflow when it needs more |
| `HashModel.Djb2IsPolynomial` | intermediate projects/hash_table.c:38-45 | Wrapping at 64 bits after every character equals the exact polynomial wrapped once at the end, negative characters included |
| `HashModel.Djb2Examples` | intermediate projects/hash_table.c:38-45 | The hashes of the empty string, of "a" and of a string with one negative character |
| `HashModel.KeysInTheirBuckets` | intermediate projects/hash_table.c:81-81 | Every key lies in bucket `hash % capacity`, and nowhere else |
| `HashModel.DropKeepsTheOthers` | intermediate projects/hash_table.c:129-142 | Removal takes out exactly the key's entry and keeps the others in order |
| `HashModel.PutLookup` | intermediate projects/hash_table.c:83-103 | After an insertion the key has the new value, every other key what it had, and keys stay unique |
| `HashModel.DropLookup` | intermediate projects/hash_table.c:129-143 | After a removal the key is absent and every other key has what it had |
| `HashModel.StepKeepsWellFormed` | intermediate projects/hash_table.c:72-144 | Every operation keeps each key unique and in the bucket of its hash; the size changes by what its bucket's chain gains or loses |
| `HashModel.PutRefines` | intermediate projects/hash_table.c:81-104 | Insertion or update in the table is update in the map |
| `HashModel.DropRefines` | intermediate projects/hash_table.c:127-143 | Removal from the table is removal from the map |
| `HashModel.StepRefines` | intermediate projects/hash_table.c:72-144 | For every hash function and outcome of the two allocations, each operation answers as the map does and the table stands for the new map, size included; a failed allocation changes nothing |
| `HashModel.InsertMeans` | intermediate projects/hash_table.c:72-105 | Insertion succeeds exactly when the key was there or both allocations succeed, and then the key has the new value; otherwise nothing changes |
| `HashModel.GetMeans` | intermediate projects/hash_table.c:107-118 | The answer is the key's value, or NULL when the key is not there |
| `HashModel.RemoveMeans` | intermediate projects/hash_table.c:120-144 | The answer says whether the key was there; afterwards it is not, and all other keys are as before |
| `HashModel.RunRefines` | intermediate projects/hash_table.c:72-144 | The same for any sequence of operations |
| `HashModel.AnswersDependOnlyOnOperations` | intermediate projects/hash_table.c:62-144 | From an empty table the answers and the final size are those of a map, whatever the capacity and the hash function |
| `HashChains.NodePlace` | intermediate projects/hash_table.c:10-20 | Chains share no node and no node occurs twice in a chain |
| `HashChains.LinkFirst` | intermediate projects/hash_table.c:100-103 | Linking a new node before the bucket's head gives the chains of the insertion |
| `HashChains.LinkRemove` | intermediate projects/hash_table.c:132-136 | Redirecting the head or the previous node's `next` gives the chains of the removal |
| `HashTable.HashTable.constructor` | intermediate projects/hash_table.c:62-70 | For any capacity an empty table with no node allocated; when there is no memory for the buckets they are NULL although the capacity is set |
| `HashTable.HashTable.HashString` | intermediate projects/hash_table.c:38-45 | Shift, add and sign-extension on wrapping 64-bit words compute djb2 |
| `HashTable.HashTable.BucketIndex` | intermediate projects/hash_table.c:81-81 | The bucket is djb2 of the key modulo the capacity |
| `HashTable.HashTable.Walk` | intermediate projects/hash_table.c:83-88 | The walk over linked nodes stops at the first node with the key, or at NULL, and knows the node before it |
| `HashTable.HashTable.Get` | intermediate projects/hash_table.c:107-118 | The stored value, or NULL; nothing changes |
| `HashTable.HashTable.Insert` | intermediate projects/hash_table.c:72-105 | Over linked nodes: table and answer of the specification; `count` and the number of live nodes and key copies equal the size; a failed allocation leaves no node behind and every node as it was |
| `HashTable.HashTable.Unlink` | intermediate projects/hash_table.c:132-136 | The relinking drops exactly the node of the key from the structure; all others keep their contents and order |
| `HashTable.HashTable.Remove` | intermediate projects/hash_table.c:120-144 | Over linked nodes: table and answer of the specification; one node and one key copy are freed exactly when the key was there |
| `HashTable.HashTable.Destroy` | intermediate projects/hash_table.c:22-35 | No node and no key copy is left, and the table is empty with capacity and count 0; destroying it again is allowed. That each was freed once, and read only before that, is what the calls below demand |
| `HashTable.HashTable.NextOf` | intermediate projects/hash_table.c:26-26 | The link of a node can be read only while the node is allocated |
| `HashTable.HashTable.FreeEntry` | intermediate projects/hash_table.c:27-28 | A node and its key copy can be freed only while both are allocated, the copy first; exactly these two are gone afterwards |
| `HashTable.HashTable.Replay` | intermediate projects/hash_table.c:72-144 | Any sequence of operations over linked nodes: table and answers of the specification, hence those of any map the table stood for |
| `Crc8.Compute` | beginner projects/crc_decoder.c:8-25 | The two loops compute the register of the specification for up to 255 bytes |
| `Crc8.LoopEnds` | beginner projects/crc_decoder.c:11-11 | The byte-wide loop counter ever reaches the length if and only if the length is at most 255 |
| `Crc8.Verify` | beginner projects/crc_decoder.c:27-37 | True exactly when the register ends at zero |
| `Crc8.PolynomialIs07` | beginner projects/crc_decoder.c:6-6 | The register's polynomial is the byte 0x07 |
| `Crc8.CrcIsFeed` | beginner projects/crc_decoder.c:11-24 | Adding a whole byte and turning eight times equals absorbing the message bit by bit |
| `Crc8Division.RegisterIsRemainder` | beginner projects/crc_decoder.c:11-24 | For every bit string m, m·x^8 = q·(x^8 + x^2 + x + 1) + register over GF(2), q being the bits shifted out |
| `Crc8Division.DivisionIsUnique` | beginner projects/crc_decoder.c:11-24 | Quotient and remainder of that division are unique |
| `Crc8Division.CrcIsTheRemainder` | beginner projects/crc_decoder.c:8-25 | A byte is `crc8` of the data if and only if it is the remainder of data(x)·x^8 divided by x^8 + x^2 + x + 1 |
| `Crc8Detection.TurnsAreInjective` | beginner projects/crc_decoder.c:14-22 | Different registers stay different however often they are turned |
| `Crc8Detection.VerifiesExactlyTheCrc` | beginner projects/crc_decoder.c:27-31 | Data followed by one byte verifies if and only if that byte is the data's `crc8` |
| `Crc8Detection.CrcLinear` | beginner projects/crc_decoder.c:8-25 | `crc8(a xor b) = crc8(a) xor crc8(b)` at equal length |
| `Crc8Detection.UnnoticedErrors` | beginner projects/crc_decoder.c:27-31 | A damaged codeword verifies if and only if the error pattern alone leaves the register at zero |
| `Crc8Detection.OddErrorsAreNoticed` | beginner projects/crc_decoder.c:27-37 | A codeword with an odd number of flipped bits never verifies |
| `Crc8Detection.BurstsAreNoticed` | beginner projects/crc_decoder.c:27-37 | A codeword with any nonzero error inside eight consecutive bits never verifies |
| `Crc8Detection.ReturnsExactlyAtMultiples` | beginner projects/crc_decoder.c:14-22 | The register of a single one returns to itself exactly after the multiples of 127 turns |
| `Crc8Detection.TwoBitErrors` | beginner projects/crc_decoder.c:27-37 | Two flipped bits are noticed if and only if their distance is not a multiple of 127 |
| `RingBuffer.QueueConserves` | beginner projects/circular_buffer.c:29-62 | What was accepted is what was popped followed by what is still held, in order, at most BUFFER_SIZE - 1 samples |
| `RingBuffer.OneRightAnswer` | beginner projects/circular_buffer.c:29-62 | How many samples are held decides which answer to a push or pop is right, and what it leaves |
| `RingBuffer.DistinctSlots` | beginner projects/circular_buffer.c:35-37 | Samples less than BUFFER_SIZE apart never share a slot |
| `RingBuffer.CircularBuffer.constructor` | beginner projects/circular_buffer.c:17-20 | An empty queue over storage with any contents |
| `RingBuffer.CircularBuffer.Push` | beginner projects/circular_buffer.c:29-46 | Refuses exactly at BUFFER_SIZE - 1 held samples, otherwise appends; storage and indexes are those of the undisturbed call |
| `RingBuffer.CircularBuffer.Pop` | beginner projects/circular_buffer.c:50-62 | Refuses exactly when nothing is held, otherwise returns and removes the oldest sample; answer and indexes are those of the undisturbed call |
| `RingBufferInterleaved.PushAlone` | beginner projects/circular_buffer.c:29-46 | The single accesses of a `cb_push` that nothing interrupts, five or (refused) two of them, add up to the effect that `CircularBuffer.Push` has |
| `RingBufferInterleaved.PopAlone` | beginner projects/circular_buffer.c:50-62 | The single accesses of a `cb_pop` that nothing interrupts, six or (refused) two of them, add up to the effect that `CircularBuffer.Pop` has |
| `RingBufferInterleaved.CallsEnd` | beginner projects/circular_buffer.c:29-62 | Under every schedule, five accesses of the producer answer a push and six of the consumer a pop, wherever in a call they begin and whatever the other actor does |
| `RingBufferInterleaved.ProduceKeepsInv` | beginner projects/circular_buffer.c:29-46 | Every single memory access of `cb_push`, at any point of a concurrent `cb_pop`, keeps the protocol's invariant |
| `RingBufferInterleaved.ConsumeKeepsInv` | beginner projects/circular_buffer.c:50-62 | Every single memory access of `cb_pop`, at any point of a concurrent `cb_push`, keeps it too |
| `RingBufferInterleaved.RefusingPush` | beginner projects/circular_buffer.c:35-44 | A push is refused only when exactly BUFFER_SIZE - 1 samples are held at that instant |
| `RingBufferInterleaved.RefusedExactlyWhen` | beginner projects/circular_buffer.c:36-60 | At the instant of the answer a push is refused if and only if BUFFER_SIZE - 1 samples are held, and a pop if and only if none is |
| `RingBufferInterleaved.EveryScheduleIsAQueue` | beginner projects/circular_buffer.c:17-62 | In every interleaving the completed calls, in order of completion, answer like a bounded queue; the popped samples are a prefix of the accepted ones and at most BUFFER_SIZE - 1 are held |
| `RingBufferInterleaved.StoresSpareUnpopped` | beginner projects/circular_buffer.c:37-37 | The producer's store never hits a slot whose sample is not yet released, nor the one being loaded |
| `UartFrames.ByPosition` | beginner projects/uart_byte_parser.c:37-108 | The five-state automaton's cases: what one byte makes of the bytes received so far, and when it completes a frame |
| `UartFrames.RunningChecksum` | beginner projects/uart_byte_parser.c:54-84 | The running exclusive or is that of all bytes after the start byte |
| `Bytes.ValueIsBinary` | beginner projects/uart_byte_parser.c:59-65 | A byte stands for the number its bits write in binary, the highest first |
| `Bytes.ValueInjective` | beginner projects/uart_byte_parser.c:59-65 | Different bytes stand for different numbers |
| `UartStream.AcceptedLengths` | beginner projects/uart_byte_parser.c:59-75 | The length bytes accepted are exactly the bytes 0 to 16 |
| `UartStream.StartByteIsAA` | beginner projects/uart_byte_parser.c:7-7 | The start byte is 0xAA |
| `UartStream.DemonstrationValues` | beginner projects/uart_byte_parser.c:112-112 | The bytes of the program's first demonstration frame are AA 03 01 22 20 |
| `UartStream.DemonstrationArrives` | beginner projects/uart_byte_parser.c:112-112 | Those bytes are the encoding of command 3 with payload 34, and the parser delivers that on the last of them |
| `UartParser.Parser.constructor` | beginner projects/uart_byte_parser.c:27-35 | The parser waits for a start byte with nothing received, and length, payload, index and checksum are zero |
| `UartParser.Parser.FeedLength` | beginner projects/uart_byte_parser.c:58-76 | A length of at most 16 is stored and followed by the payload, or by the checksum when it is 0; a larger one sends the parser back to waiting |
| `UartParser.Parser.FeedPayload` | beginner projects/uart_byte_parser.c:77-91 | The byte lands at its place in the payload and the last one ends the payload |
| `UartParser.Parser.FeedByte` | beginner projects/uart_byte_parser.c:37-108 | Over the parser's fields: true exactly when the byte completes a frame with a right checksum, and then cmd, len and payload are that frame's; otherwise each of these fields changes only where its byte is received |
| `UartParser.Parser.FeedAll` | beginner projects/uart_byte_parser.c:37-108 | Any stream fed to the parser's fields: the calls return what the specification says byte by byte, from whatever was pending |
| `UartStream.StreamIsBatch` | beginner projects/uart_byte_parser.c:37-108 | On any byte stream the parser delivers exactly the frames a recursive batch decoder finds, at the same bytes |
| `UartStream.EncodedFrameArrives` | beginner projects/uart_byte_parser.c:37-108 | An encoded frame (any command, 0 to 16 payload bytes) makes the parser return true on its last byte only, with that frame, and leaves it idle |
| `UartStream.CorruptionAccepted` | beginner projects/uart_byte_parser.c:92-105 | With start and length byte intact, a corrupted frame is accepted if and only if its differences cancel under exclusive or |
| `UartStream.DamageIsNoticed` | beginner projects/uart_byte_parser.c:92-105 | One changed command, payload or checksum byte gets the frame rejected, with the parser idle at its end |
| `UartStream.EveryFrameArrives` | beginner projects/uart_byte_parser.c:37-108 | Through any mixture of noise without 0xAA, frames and frames damaged in one such byte, exactly the undamaged frames are delivered, each on its last byte |
| `UartStream.IdleWithin19` | beginner projects/uart_byte_parser.c:40-106 | From any reachable state the parser waits for a start byte again within 19 bytes |
| `UartStream.QuietGapResynchronises` | beginner projects/uart_byte_parser.c:40-106 | From any reachable state, 19 or more bytes without 0xAA leave the parser waiting for a start byte |
| `UartStream.GapOf18IsTooShort` | beginner projects/uart_byte_parser.c:40-106 | 18 bytes are not enough: after a start byte, any 18 bytes whose second one is 16 leave the parser inside a frame |
| `UartStream.FramesArriveAfterGap` | beginner projects/uart_byte_parser.c:37-108 | Whatever came before, damaged start and length bytes included: after such a gap exactly the undamaged frames are delivered, each on its last byte |
| `RunLength.PairsRoundTrip` | beginner projects/compress_repeat.c:27-43 | The greedy pairs expand to the input, with counts in 1..255 |
| `RunLength.GreedyIsShortest` | beginner projects/compress_repeat.c:30-42 | No list of pairs with counts in 1..255 that expands to the input is shorter |
| `RunLength.SucceedsWheneverPossible` | beginner projects/compress_repeat.c:33-58 | With at most 255 bytes of room, 0 is returned exactly when the fewest pairs do not fit, so the encoder succeeds whenever any encoding fits |
| `RunLength.LengthIsRight` | beginner projects/compress_repeat.c:17-39 | The length returned is right if and only if the room is at most 255 bytes, or at most 127 pairs are needed, or the right answer is 0 and the byte-wide index happens to wrap to it |
| `RunLength.WrapsAt128Pairs` | beginner projects/compress_repeat.c:17-39 | An input of 128 runs with exactly 256 bytes of room: the answer should be 256 and is 0 |
| `RunLength.PlacedDecodes` | beginner projects/compress_repeat.c:37-51 | The pairs written since the index last wrapped to 0 decode to what they expand to |
| `RunLength.ResultDecodes` | beginner projects/compress_repeat.c:37-64 | A result of up to 127 pairs decodes to all of them; of more pairs, the returned part decodes to strictly fewer bytes than were encoded |
| `RunLength.Encode` | beginner projects/compress_repeat.c:15-65 | Into another buffer: the length of the specification; the pairs stand at their places; the result decodes to exactly the input if and only if at most 127 pairs are needed and have room. Into the input itself: buffer and length of the in-place specification. In both cases nothing beyond `output_max_len` is written and an empty input returns 0 |
| `RunLengthInPlace.InPlaceRoundTrip` | beginner projects/compress_repeat.c:15-65 | Output in the input's own buffer, any room: the result decodes to the input if and only if at most 127 pairs are needed and have room, and every pair but the last is written behind the byte to be read next, or ends on that byte and finds its own count there; with such writes the length is that of a separate buffer |
| `RunLengthInPlace.InPlaceLosesData` | beginner projects/compress_repeat.c:37-40 | The input 5, 7 encoded in place becomes 5, 1, 1, 1: the second byte is overwritten before it is read |
| `RunLengthInPlace.WrittenStays` | beginner projects/compress_repeat.c:30-52 | The pairs the in-place encoder ends with begin with what it has written and counted at any point, and account for every byte it reads, whatever it reads |

## Left out

- HeapAllocator.Heap.Free: requires NULL or a live pointer, because a stale pointer breaks the walk over the list.
- HeapAllocator.Heap.constructor: the heap before `heap_init`, when `free_list` is NULL and every allocation returns NULL, is not modelled; neither are the host alignment of the arena and 32-bit header layouts.
- HeapAllocator.Heap.Replay: a payload is written and kept in aligned 8-byte words; stores of single bytes are not modelled.
- Vm.Machine.Run: stated for programs that stop from the current state; a program that loops makes `vm_run` loop.
- Vm.Machine.Arithmetic: `vm_add`, `vm_sub` and `vm_mult` differ only in the operator and in which variable names which popped operand, so they are one method with an operator parameter.
- VmExpressions.Evaluates: claims nothing about values outside 32 bits, where the C code is undefined; conditionals need jump targets below 256, the range of a one-byte address.
- HashTable.HashTable.BucketIndex: requires a capacity above zero and buckets; without them the program divides by zero or follows a null pointer.
- HashTable.HashTable.Walk: the three identical chain walks of insert, get and remove are one method.
- HashTable.HashTable.Insert: the key copy is a field of its node, so the bytes of `strcpy` are not modelled; that the copy is allocated and freed separately is.
- HashTable.HashTable.Destroy: excludes a table whose `calloc` failed for a capacity above zero, because the program then follows a null pointer; `free` of the bucket array is shown by setting the field to null.
- Crc8.Compute: requires at most 255 bytes; `Crc8.LoopEnds` proves that for longer inputs the program's loop never ends.
- RingBufferInterleaved.EveryScheduleIsAQueue: accesses are sequentially consistent, whole words at a time; the flag `interrupts_disabled` has no reader in the program and is not modelled.
- RingBuffer.CircularBuffer.Push: a sample is an integer, which no operation computes with, so its 16 bits do not matter.
- UartParser.Parser.constructor: `cmd` is not set by `parser_init` and holds any value.
- UartStream.EveryFrameArrives: does not cover frames with a damaged start or length byte, after which the parser may take later bytes for part of a frame; `UartStream.StreamIsBatch` says what it then delivers, and `UartStream.FramesArriveAfterGap` that every frame after a quiet gap of 19 bytes arrives.
- RunLength.Encode: input and output are the same buffer or have no byte in common; buffers that overlap in part are not modelled.
- Printing everywhere, including `err_msg`, `print_stack`, `print_hash_table` and the demonstration programs in `main`.
- The second hash table (hash_table_practice.c) and the second CRC-8 (crc.c): the same core as the ones modelled.
- ring_buffer_timed.c and dma_ping_pong_buffer.c: no queue is promised, their copies overwrite or lose data.
- linked_list.c and string_parser.c: singly linked and tabular storage, of which the hash table's chains are the more general form.
- Floating-point programs (haversine, pid_controller, robot_heading, robot_wheel_motion, fade_gain_control, audio_gain, moving_avg_low_pass): rounding is all there is to them.
- Bit reverse, byte swap, register masks, channel mixers, encoders, watchdog, debounce: single expressions or one branch on one variable, which their code already states in full.
- cli_shell.c, simple_game.c, door_lock_control.c and TEMP: processes, graphics, user interface and vendor services that are not part of this model.
