# Models of the set-top-box tools and drivers

Eleven models of components of the repository whose state, layout or ordering is
hard to get right, and proofs about them. One file per component:

- `PtiStream.dfy`: the transport-stream pipeline of the PTI driver (the
  `__TDT__` variant). The controller writes packets of 194 bytes into a ring of
  4096, a timer turns the filled part into work items in a circular queue, an
  injector thread sorts each item's packets by tag into batches. Runs are any
  interleaving of these steps.
- `PidTable.dfy`: the driver's table of PIDs with its 32 slots, which the
  firmware reads while single words of it change.
- `Mup.dfy`: the nested update image (SwPack, SwInventory, SwUnity), its
  creation in a buffer, parsing and verification. It uses `Sha1.dfy`, the SHA-1
  of the same tool, for the stored hashes.
- `Sha1.dfy`: the transform and the streaming context, against sections 4, 7
  and 8 of FIPS PUB 180-1.
- `Fup.dfy` and `Crc16.dfy`: the IRD container of CRC-framed blocks, written,
  edited and extracted, and its CRC-16 against bit-serial division.
- `DepGraph.dfy` and `DepDuplicates.dfy`: the depth-first walk of the dependency
  graph, which removes edges from the graph while it walks; the second file is
  about graphs whose lists name a dependency more than once.
- `DepString.dfy`: the two parsers of parenthesised dependency strings.
- `Version.dfy`: version and package comparison, at the level of strings, with
  the rounding of floats as a parameter.
- `Loopback.dfy`: the ioctl rendezvous between many clients and one daemon over
  one mailbox and two mutexes, as steps of threads.
- `Atr.dfy`: the answer-to-reset parser and printer, section 8.2 of
  ISO/IEC 7816-3:2006.
- `Ramzswap.dfy`: the compressed page store as a map from pages to their last
  contents.
- `Octets.dfy` and `Wrappers.dfy`: bytes and the numbers they stand for, and
  values that may be missing, shared by the others.

Each file first gives a specification in functions and predicates, then lemmas
about it, then the code: classes and methods in the form of the source (loops,
arrays written in place, fields), each proved equal to the specification. State
that a proof needs but the code does not have is ghost.

`dafny verify dfyconfig.toml` checks everything.

## Main results

- In every run of controller, timer, firmware and injector each demultiplexer
  gets exactly its packets, in order (`PtiStream.StreamDelivered`, and
  `PacketsDelivered` for packets put together from their header fields), and the
  work items cover the stream without gap or overlap (`ItemsTileTheRing`). A reading
  of the ring's end is safe exactly where `TopReadingKeepsIff` says, and
  `StaleTopReading` is a run in which one is not.
- The PID table and the slots stay in bijection in every run of allowed calls,
  and what the firmware sees in between is safe (`PidTable.RunKeeps`,
  `StepKeeps`); what breaks it is known exactly (`SetKeepsIff`, `FreeKeepsIff`).
  Every answer of such a run follows from the answers before it: handles out,
  PIDs live (`RunAnswers`).
- Every image of up to eight partitions parses back to its partitions and
  verifies (`Mup.RoundTrip`), its bytes are where the formats put them
  (`PackBytes`, `SlotBytes`, `ChildBytes`), and an image made for a product has
  its code in every header (`CreatedUpdate`).
- The in-place SHA-1 transform is section 7 of FIPS PUB 180-1 for every state
  and block, and the streaming context hashes the concatenation, however it was
  cut (`Sha1.Transform`, `Sha1.SHA1Ctx.Update`, `Final`); the padding is stated
  through numbers (`PaddedIs`).
- The table-driven CRC is bit-serial division (`Crc16.TableIsSerial`); created
  and edited containers extract to their files (`Fup.ExtractOfImage`,
  `EditedImageExtracts`), each under the type of its option (`OptionExtracts`), and a corrupted byte or two neighbouring ones in any
  block are reported as one mismatch (`CorruptionReported`).
- On graphs without repeated dependencies the walk ends, keeps what can be
  reached, leaves no loop through two targets and reports each surviving edge
  once (`DepGraph.Dfs...`). On any graph it ends exactly when every repeated
  dependency of a reachable target, other than the target itself, is an edge
  that the walk without the repetitions removes (`DepDuplicates.EndsIff`), and
  then it does the same up to self edges (`EndsLikeDedup`).
- `dep_parenreduce` and `tokenize` compute one nested form, which is inverse to
  writing out (`DepString.TokenList.DepParenReduce`, `NestUnparse`,
  `ParsersAgree`), and words between white space are the tokens (`LexText`).
- `vercmp` is a total preorder given by one canonical key per version, for every
  order-keeping rounding of floats (`Version.CompareIsKeyOrder`,
  `TotalPreorder`), and its cache never changes a result (`Vercmp`). The order
  is that of the numbers, of digits behind a leading 0, of the suffixes and of
  the letters (`NumbersInOrder`, `FractionsInOrder`, `SuffixOrder`,
  `LettersInOrder`, `MoreIsLater`).
- In every interleaving each loopback call returns its own answer to its own
  client (`Loopback.CallsReturnTheirAnswer`), byte by byte as the fields of the
  command number say (`CallsReturnPostedBytes`); one exception is exhibited
  (`ReservedCallReturnsOldValue`), and no call is stuck (`EveryCallCanReturn`).
- A printed answer to reset is the input and parses back to itself
  (`Atr.RawIsInput`, `Reparse`), and an answer laid out by the standard parses to
  its parts (`LaidParses`); the inputs that leave the parser's table are
  exactly those with an eighth group, and they exist (`OverrunIff`,
  `OverrunExists`).
- A page read is the page last written, and every allocation is freed exactly
  once (`Ramzswap.Store.Read`, `Write`, `Exit`).

## What the environment is assumed to do

- PTI: fewer than 400 items are outstanding, counting the one in progress, and
  the controller does not overwrite a slot that is still queued. After a full
  turn the write register may read as the start of the ring or as its end; the
  end is read only where the poll then counts right (`CountsRight`).
- Slots: callers set a PID only on a slot without one, and not 0xffff. Calls on
  slots do not overlap each other; only the firmware reads in between.
- Loopback: no waiting client gives up; a client's argument is as long as its
  command says and the answer to it fits the 5120-byte buffer; the daemon does
  not answer the command number that marks an empty mailbox. Numbers have 32 bits.
- Versions: rounding to a float keeps the order and 0, and a difference of
  floats has the right sign, as long as no number overflows.
- Image: at most eight partitions, names of at most 31 bytes, an image of less
  than 2^31 bytes (the sizes pass through `int32_t`), a little-endian host, a
  zero-filled image buffer. Every other byte that the code leaves to `malloc`
  or reads behind a buffer is arbitrary. The inventory count starts at 0.
- Page store: decompressing what was compressed gives the page back. Failing
  compressions and allocations are inputs of each write.

## Where code and comments differ

- `atr.c:196` asks for TB1 below 0x80; the code accepts 0x80 as well, and so
  does the model.
- `atr.c:153` compares with the number of rows after the row was filled, so an
  eighth group is written behind the table; `OverrunIff` gives the inputs, and
  `OverrunExists` some of 10 to 33 bytes.
- `mup.cpp:162` offers product 3 as 0x11301006; the code in line 169 takes
  0x11321006, and so does the model.
- `sh1.h:31-34` undefines `LITTLE_ENDIAN` on little-endian hosts, so blocks are
  not loaded as FIPS PUB 180-1 wants. The load of a word is a parameter, and
  nothing here says that the digests are those of the standard.
- `pti_main.c:138-141` trusts the injector to be fast enough;
  `FullQueueDiscards` says that exactly 400 outstanding items are too many.
- `fup.c:410` counts arguments in a byte; `PartsDropped` says what that loses.
- `dep-graph.py` makes its lists duplicate-free with `uniq`, but then renames
  entries (lines 133-140), which can bring a duplicate back. `EndsIff` says when
  the walk still ends: not on a dependency listed twice from which there is no
  way back (`DuplicateNeverEnds`), but for example where both entries close a
  loop (`RepetitionMayEnd`). Self edges are harmless and are part of the
  statements.

## Model

| member | source | states |
|---|---|---|
| PtiStream.StreamDelivered | tdt/cvs/driver/pti/pti_main.c:333-609 | In every run of ring writes, polls, acknowledgements and injector steps, with the write register read as the start or the end of the ring, tag t's demultiplexer has received exactly the payloads of tag t among the packets sorted so far, in order, none lost or repeated, up to fewer than 20 still in its buffer; when all items are done and cover all complete packets it has them all; every batch holds 1 to 20 packets; a tag without a demultiplexer receives nothing |
| PtiStream.PacketsDelivered | tdt/cvs/driver/pti/pti_main.c:333-609 | For a stream of packets given by their parts (a first byte 64 * high + 4 * tag + low, five more header bytes, 188 bytes of payload), in every run tag t's demultiplexer has received, or has waiting, exactly the payloads of the packets with tag t among those sorted, in order; fewer than 20 wait, and none while the injector is idle; a tag without a demultiplexer gets nothing |
| PtiStream.SortRoutes | tdt/cvs/driver/pti/pti_main.c:401-485 | A packet whose first byte is 64 * high + 4 * tag + low appends its last 188 bytes to what that tag has received or collected, if the tag is registered, and nothing to any other tag |
| PtiStream.AnnouncedIsQueued | tdt/cvs/driver/pti/pti_main.c:577-601 | The count handed to the firmware is the number of packets in the items queued by that poll, and stays as it was when the poll queues nothing |
| PtiStream.ItemsTileTheRing | tdt/cvs/driver/pti/pti_main.c:555-601 | In every run the queued items name the ring slots of packets 0, 1, 2, ... in order, each exactly once, inside the ring, and only complete packets |
| PtiStream.NoItemDiscarded | tdt/cvs/driver/pti/pti_main.c:335-354 | In no run is an item thrown away: past the semaphore the injector always finds the next queued item in order |
| PtiStream.RunInv | tdt/cvs/driver/pti/pti_main.c:333-609 | The invariant of ring, queue, pointers, semaphore, injector and deliveries holds in every reachable state |
| PtiStream.NextInv | tdt/cvs/driver/pti/pti_main.c:333-609 | Every single step of controller, timer, firmware and injector keeps that invariant |
| PtiStream.InitialInv | tdt/cvs/driver/pti/pti_main.c:812-849 | The state after initialisation satisfies it |
| PtiStream.DmaInv | tdt/cvs/driver/pti/pti_main.c:204-218 | A byte written by the controller keeps the last ring-full of the stream readable and no queued slot overwritten |
| PtiStream.TickInv | tdt/cvs/driver/pti/pti_main.c:516-603 | A poll keeps the invariant, in one or two pieces, for either reading of the register after a full turn that counts right, whenever fewer than 400 items stay outstanding |
| PtiStream.TickPointers | tdt/cvs/driver/pti/pti_main.c:525-601 | After a poll the software pointer stands behind the last queued packet, perhaps at the end of the ring, and the new items continue the tiling |
| PtiStream.TakeInv | tdt/cvs/driver/pti/pti_main.c:335-354 | Taking an item keeps the invariant and never fails |
| PtiStream.InjectInv | tdt/cvs/driver/pti/pti_main.c:393-486 | Sorting one packet keeps the invariant |
| PtiStream.FlushInv | tdt/cvs/driver/pti/pti_main.c:487-501 | Handing over the remainders and freeing the slot keeps the invariant |
| PtiStream.RingHoldsPacket | tdt/cvs/driver/pti/pti_main.c:378-401 | The bytes the injector reads from the ring are the next packet of the stream |
| PtiStream.SortDelivers | tdt/cvs/driver/pti/pti_main.c:401-485 | Sorting a packet appends its payload to what its own registered tag has received or collected, and changes no other tag |
| PtiStream.RestDelivers | tdt/cvs/driver/pti/pti_main.c:487-497 | The remainders loop gives each registered tag exactly what was collected for it |
| PtiStream.PendingIs | tdt/cvs/driver/pti/pti_main.c:555-584 | The poll's count is the number of complete packets not yet queued, except that a completely full ring looks empty; the two pieces of a wrapped poll end and start at the ring's boundary |
| PtiStream.EndTestRewinds | tdt/cvs/driver/pti/pti_main.c:551-552 | The end test without the low four bits fires for a software pointer at the end of the ring and for no other slot boundary, and then the pointer stands at the start |
| PtiStream.PollQueuesAll | tdt/cvs/driver/pti/pti_main.c:551-601 | A poll that may announce queues all complete packets; it queues something exactly when some wait, except that 4096 waiting packets look like none if the start of the ring is read |
| PtiStream.TopReadingKeepsIff | tdt/cvs/driver/pti/pti_main.c:522-601 | Where the write register reads as the end of the ring, a poll keeps the invariant exactly if it announces nothing, or the software pointer is not at the start, or the whole ring is new; otherwise it queues a whole ring although nothing waits |
| PtiStream.StaleTopReading | tdt/cvs/driver/pti/pti_main.c:522-601 | A run that reaches such a poll: a full turn queued from the end reading, acknowledged, and the end read again |
| PtiStream.TopReading | tdt/cvs/driver/pti/pti_main.c:555-562 | The count of a poll that reads the end of the ring, and exactly when it is right |
| PtiStream.FullQueueDiscards | tdt/cvs/driver/pti/pti_main.c:340-349 | With at most 400 items outstanding, the injector throws one away exactly when there are 400 |
| PtiStream.PtiDriver.constructor | tdt/cvs/driver/pti/pti_main.c:812-849 | The driver starts in the initial state |
| PtiStream.PtiDriver.Enqueue | tdt/cvs/driver/pti/pti_main.c:584-599 | One entry written at writeIndex, the index advanced modulo 400, the semaphore raised |
| PtiStream.PtiDriver.ProcessPtiDma | tdt/cvs/driver/pti/pti_main.c:516-603 | The whole poll changes the driver's state as the model's poll does |
| PtiStream.PtiDriver.Announce | tdt/cvs/driver/pti/pti_main.c:577-601 | Read register, firmware count, one or two queue entries and the software pointer |
| PtiStream.PtiDriver.SortPacket | tdt/cvs/driver/pti/pti_main.c:401-485 | One packet into the fixed auxiliary buffer of its tag, handed over when it holds 20; the buffer never overflows |
| PtiStream.PtiDriver.InjectRemainders | tdt/cvs/driver/pti/pti_main.c:487-497 | The remainders of all tags, in tag order |
| PtiStream.PtiDriver.StreamInjector | tdt/cvs/driver/pti/pti_main.c:333-502 | One round of the injector, on the auxiliary buffer, equals taking, sorting all packets of the item and flushing |
| PidTable.RunKeeps | tdt/cvs/driver/pti/pti_main.c:877-1016 | In every run of slot calls that set a PID below 0xffff only on a slot without one, the first num_pids entries and the armed slots are in bijection, without duplicate PIDs, and the table is never left |
| PidTable.RunAnswers | tdt/cvs/driver/pti/pti_main.c:877-1016 | In every run of such calls, going by what the calls returned: Get fails exactly when 32 handles are out and otherwise returns one from 20000 to 20031 that is not; a set fails exactly when its handle is not out or the PID is live, a clear exactly when the handle has no PID; the slots in use are the handles got and not freed since, and the firmware's PIDs are those set and neither cleared nor freed since |
| PidTable.FreedCanBeGot | tdt/cvs/driver/pti/pti_main.c:921-1015 | After a Free the next Get returns a handle |
| PidTable.StepKeeps | tdt/cvs/driver/pti/pti_main.c:877-1016 | Each such call keeps the bijection, and every prefix the firmware can see between the single writes has all PIDs that stay and none that is live neither before nor after |
| PidTable.SetKeepsIff | tdt/cvs/driver/pti/pti_main.c:951-993 | Setting a PID keeps the bijection exactly when it fails or the slot had no PID |
| PidTable.FreeKeepsIff | tdt/cvs/driver/pti/pti_main.c:921-937 | Freeing a slot keeps the bijection exactly when the slot has no PID or one other than 0xffff |
| PidTable.FillerStays | tdt/cvs/driver/pti/pti_main.c:885-892 | The concrete run that breaks it: 0xffff set, slot freed, the entry stays without a slot |
| PidTable.SetKeeps | tdt/cvs/driver/pti/pti_main.c:957-982 | A set on a slot without a PID keeps the bijection, and there is room for it in the table |
| PidTable.ClearKeeps | tdt/cvs/driver/pti/pti_main.c:894-914 | Moving the last entry into the gap, and its slot with it, keeps the bijection; the cleared slot is disarmed |
| PidTable.GetKeeps | tdt/cvs/driver/pti/pti_main.c:1002-1013 | Handing out a free slot changes no entry and keeps the bijection |
| PidTable.RoomLeft | tdt/cvs/driver/pti/pti_main.c:972-979 | A slot without a PID means fewer than 32 entries |
| PidTable.SetSeen | tdt/cvs/driver/pti/pti_main.c:977-979 | During a set every visible prefix is safe; afterwards exactly the new PID has been added |
| PidTable.ClearSeen | tdt/cvs/driver/pti/pti_main.c:898-901 | During a clear every visible prefix is safe; afterwards exactly the slot's PID is gone |
| PidTable.InitialInv | tdt/cvs/driver/pti/pti_main.c:812-838 | After initialisation the table is empty and no slot is armed |
| PidTable.PatchedHalves | tdt/cvs/driver/pti/pti_main.c:156-162 | The read-modify-write of a word replaces one halfword and keeps the other |
| PidTable.TableBytes | tdt/cvs/driver/pti/pti_main.c:774-775 | The count of PIDs is the two bytes from 42 on in the data RAM, entry k of the table those from 58 + 2 * k on, low byte first |
| PidTable.Pti.constructor | tdt/cvs/driver/pti/pti_main.c:812-838 | Empty table, 32 free slots with handles from 20000 on |
| PidTable.Pti.PtiWrite | tdt/cvs/driver/pti/pti_main.c:154-163 | A write changes the addressed halfword of the RAM and no other, and shows the firmware one new prefix |
| PidTable.Pti.GetNewSlotHandle | tdt/cvs/driver/pti/pti_main.c:1002-1015 | The first slot not in use, or -1 |
| PidTable.Pti.SlotSetPid | tdt/cvs/driver/pti/pti_main.c:951-993 | State, result and the sequence of visible prefixes of a set, with all failures |
| PidTable.Pti.SlotClearPid | tdt/cvs/driver/pti/pti_main.c:877-919 | State, result and the sequence of visible prefixes of a clear |
| PidTable.Pti.MoveSlot | tdt/cvs/driver/pti/pti_main.c:904-912 | The first slot of the moved entry gets the freed index |
| PidTable.Pti.SlotFree | tdt/cvs/driver/pti/pti_main.c:921-937 | State and visible prefixes of a free |
| Mup.RoundTrip | tdt/flash/common/mup.src/swpack.cpp:50-207 | For every list of up to eight partitions the image parses back to exactly as many, in order, each with its flash offset, product code, date, name and bytes; it can be read without leaving it, its header is the one written, and it verifies |
| Mup.CreatedUpdate | tdt/flash/common/mup.src/mup.cpp:147-299 | The image made from the chosen product and the given files parses back to as many partitions with their bytes, names, dates and flash offsets, and the product code of the chosen product stands in the pack header and in every unity header |
| Mup.CreateUpdate | tdt/flash/common/mup.src/mup.cpp:147-299 | The creation sequence (date, product, the files in order, image) returns that image |
| Mup.PackBytes | tdt/flash/common/mup.src/swpack.h:31-42 | The fields of the pack header byte by byte: magic at 0, then six little-endian numbers from 8 on, the text at 32 |
| Mup.SlotBytes | tdt/flash/common/mup.src/swinventory.h:39-48 | Slot k starts at 512 + 64 * k: the letters MARUSWUP, version 100, and at 12, 16 and 20 the child's offset, the unpadded size and the flash offset, little-endian |
| Mup.ChildBytes | tdt/flash/common/mup.src/swunity.h:33-48 | Child k: magic, version, product, software version, date, flash offset and length as little-endian numbers, the SHA-1, the CRC, name and text at their positions, and the file 512 bytes behind its start |
| Mup.InfoSpells | tdt/flash/common/mup.src/swunity.cpp:50-52 | The text of the headers reads Software Update and ends with a NUL |
| Mup.OffsetIs | tdt/flash/common/mup.src/swpack.cpp:171-174 | The first child is at 0 and each next one behind 512 bytes and the file before it, rounded up to 0x100 |
| Mup.PartRecovered | tdt/flash/common/mup.src/swinventory.cpp:41-59 | In slot k the parser finds the headers of partition k, a file of exactly its bytes, and its name |
| Mup.CountRecovered | tdt/flash/common/mup.src/swpack.cpp:63-77 | The parser keeps exactly the written inventories |
| Mup.EmptySlotInvalid | tdt/flash/common/mup.src/swinventory.cpp:104-113 | An unused slot of a zero-filled image is rejected, and its child is not looked at |
| Mup.RegionsDisjoint | tdt/flash/common/mup.src/swpack.cpp:171-199 | The padded children are aligned to 0x100, pairwise disjoint, behind the slots and inside the image |
| Mup.ImageHolds | tdt/flash/common/mup.src/swpack.cpp:186-201 | Slot k and child k of the finished image hold what was copied for partition k: no later copy overwrote them |
| Mup.FilledStep | tdt/flash/common/mup.src/swpack.cpp:188-201 | One round of copying adds one slot and one child and changes nothing else |
| Mup.PackRound | tdt/flash/common/mup.src/swpack.h:31-42 | The SwPack header read by the cast is the one written |
| Mup.InventoryRound | tdt/flash/common/mup.src/swinventory.h:39-48 | The inventory header read by the cast is the one written |
| Mup.UnityRound | tdt/flash/common/mup.src/swunity.h:33-48 | The unity header read by the cast is the one written |
| Mup.CStringRound | tdt/flash/common/mup.src/swunity.cpp:318-319 | A name without NUL is read back from its field |
| Mup.AppendedPart | tdt/flash/common/mup.src/swpack.cpp:163-174 | Appending a partition leaves the offsets and headers of the earlier ones as they were |
| Mup.SwUnity.constructor | tdt/flash/common/mup.src/swunity.cpp:37-52 | The default header over whatever the allocation held |
| Mup.SwUnity.CalcSH1 | tdt/flash/common/mup.src/swunity.cpp:203-210 | The streaming hash of the file |
| Mup.SwUnity.SetPartition | tdt/flash/common/mup.src/swunity.cpp:314-344 | Flash offset, name, length, hash and CRC in the header; the buffer is header, gap and file |
| Mup.SwInventory.constructor | tdt/flash/common/mup.src/swinventory.cpp:19-31 | Default header and a default unity |
| Mup.SwUnity.Parse | tdt/flash/common/mup.src/swunity.cpp:61-83 | Header, file position and length, with the 32-bit wrap and the limit by the header |
| Mup.SwUnity.Verify | tdt/flash/common/mup.src/swunity.cpp:241-283 | True exactly when the hash and the CRC of the file are the stored ones |
| Mup.SwInventory.SetPartition | tdt/flash/common/mup.src/swinventory.cpp:125-144 | The written header has the unpadded size, the child is padded to 0x100, and only the header in memory gets the padded size |
| Mup.SwInventory.Parse | tdt/flash/common/mup.src/swinventory.cpp:41-59 | The inventory header at the slot, and the unity parsed at the position it names |
| Mup.SwInventory.IsValid | tdt/flash/common/mup.src/swinventory.cpp:104-113 | Magic and version |
| Mup.SwPack.constructor | tdt/flash/common/mup.src/swpack.cpp:25-41 | No partitions, default header |
| Mup.SwPack.AppendPartition | tdt/flash/common/mup.src/swpack.cpp:163-176 | One more partition, placed behind the padded children before it; the earlier ones unchanged |
| Mup.SwPack.CreateImage | tdt/flash/common/mup.src/swpack.cpp:178-207 | The buffer filled in place is exactly header, slots and children, and a copy of it is returned |
| Mup.SwPack.FillImage | tdt/flash/common/mup.src/swpack.cpp:186-201 | The buffer, filled round by round, is the finished image |
| Mup.SwPack.Parse | tdt/flash/common/mup.src/swpack.cpp:50-78 | As many inventories as the leading valid slots, each parsed where its header says |
| Mup.SwPack.Verify | tdt/flash/common/mup.src/swpack.cpp:143-153 | True exactly when every file matches its stored hash and CRC |
| Sha1.Transform | tdt/flash/common/mup.src/sh1.cpp:14-64 | The in-place circular schedule and the unrolled rounds with renamed registers compute section 7's state, for every state and block |
| Sha1.WindowMoves | tdt/flash/common/mup.src/sh1.h:57-58 | The assignment in the 16-word block computes the next word of the 80-word schedule and keeps the last 16 in place |
| Sha1.RolIs | tdt/flash/common/mup.src/sh1.h:47-47 | The shifts are the rotations by 1, 5 and 30 bits |
| Sha1.ConstantsAreRoots | tdt/flash/common/mup.src/sh1.h:61-65 | The four constants are the square roots of 2, 3, 5 and 10 in units of 2^-30, rounded down, for 20 operations each |
| Sha1.InitialBytes | tdt/flash/common/mup.src/sh1.cpp:72-75 | The first four initial words hold the bytes 01 23 45 67 89 AB CD EF FE DC BA 98 76 54 32 10, least significant byte first |
| Sha1.PaddedIs | tdt/flash/common/mup.src/sh1.cpp:110-118 | The padded message is whole blocks: the message, the byte 128, fewer than 64 zeros, and eight bytes whose number, most significant first, is the length in bits modulo 2^64 |
| Sha1.WordBytesIs | tdt/flash/common/mup.src/sh1.cpp:119-122 | The four bytes of a word in the digest, most significant first, make the word again |
| Sha1.MacroChIs | tdt/flash/common/mup.src/sh1.h:61-62 | The macro's form of the choice function is section 5's |
| Sha1.MacroMajIs | tdt/flash/common/mup.src/sh1.h:64-64 | The macro's form of the majority function is section 5's |
| Sha1.RoundHolds | tdt/flash/common/mup.src/sh1.h:61-65 | One macro, with the registers read one place further round, is one step of section 7 |
| Sha1.Blk | tdt/flash/common/mup.src/sh1.h:57-58 | The schedule word is returned and stored in place |
| Sha1.R0 | tdt/flash/common/mup.src/sh1.h:61-61 | Operations 0 to 15 |
| Sha1.R1 | tdt/flash/common/mup.src/sh1.h:62-62 | Operations 16 to 19 |
| Sha1.R2 | tdt/flash/common/mup.src/sh1.h:63-63 | Operations 20 to 39 |
| Sha1.R3 | tdt/flash/common/mup.src/sh1.h:64-64 | Operations 40 to 59 |
| Sha1.R4 | tdt/flash/common/mup.src/sh1.h:65-65 | Operations 60 to 79 |
| Sha1.CountAdd | tdt/flash/common/mup.src/sh1.cpp:88-89 | The two count words after an update are the 64-bit bit count, carry included |
| Sha1.UpdateTestExact | tdt/flash/common/mup.src/sh1.cpp:90-90 | The 32-bit test for a full block is right exactly for the lengths whose sum with the buffered ones does not wrap |
| Sha1.PaddingShort | tdt/flash/common/mup.src/sh1.cpp:115-115 | The padding loop's test is the one of section 4 |
| Sha1.SHA1Ctx.constructor | tdt/flash/common/mup.src/sh1.cpp:69-78 | The context represents the empty message |
| Sha1.SHA1Ctx.Update | tdt/flash/common/mup.src/sh1.cpp:83-100 | However it was split, the context represents the concatenation of everything fed to it: state after the full blocks, bit count, buffered rest |
| Sha1.SHA1Ctx.FullBlocks | tdt/flash/common/mup.src/sh1.cpp:93-95 | The loop hashes every full block of the data and stops before the rest |
| Sha1.SHA1Ctx.AbsorbBlocks | tdt/flash/common/mup.src/sh1.cpp:90-99 | The branch with a full block: state and buffer stand for the longer message |
| Sha1.SHA1Ctx.PadWithZeros | tdt/flash/common/mup.src/sh1.cpp:115-117 | The loop terminates after exactly the zero bytes of section 4 |
| Sha1.SHA1Ctx.Wipe | tdt/flash/common/mup.src/sh1.cpp:125-131 | Cleared, and the cleared block hashed |
| Sha1.SHA1Ctx.Final | tdt/flash/common/mup.src/sh1.cpp:105-132 | Terminates with the digest of the message padded as in section 4, and wipes the context |
| Crc16.Crc16 | tdt/flash/common/fup.src/crc16.c:62-67 | The loop over the table is the bit-serial division |
| Crc16.TableEntry | tdt/flash/common/fup.src/crc16.c:9-42 | All 256 entries are eight steps of the reflected division by 0x8005 |
| Crc16.TableIsSerial | tdt/flash/common/fup.src/crc16.c:49-67 | The table-driven CRC equals the bit-serial one on every buffer |
| Crc16.CrcAppend | tdt/flash/common/fup.src/crc16.c:62-67 | The CRC of a concatenation continues from the CRC of its first part |
| Crc16.Bits8Linear | tdt/flash/common/fup.src/crc16.c:49-52 | A byte step is linear over exclusive or |
| Crc16.DetectsTwoBytes | tdt/flash/common/fup.src/crc16.c:49-67 | Buffers of equal length that differ only within two neighbouring bytes have different CRCs |
| Fup.CorruptionChangesCrc | tdt/flash/common/fup.src/fup.c:260-269 | Replacing one or two neighbouring payload bytes changes the CRC that readBlock computes |
| Fup.CorruptionReported | tdt/flash/common/fup.src/fup.c:244-391 | Replacing one or two neighbouring payload bytes of any one block of a finished container makes the extraction count exactly one mismatch; it still reads all blocks and ends at the end of the file |
| Fup.ExtractsFrames | tdt/flash/common/fup.src/fup.c:244-391 | Over stored blocks with right or wrong CRCs the extraction reads all of them to the end of the file and counts exactly the wrong ones |
| Fup.ExtractOfImage | tdt/flash/common/fup.src/fup.c:199-391 | Extracting a container gives for each partition type its files joined in order and no file for the others, every CRC matches, all blocks are read, and the last step lands on the end of the file; also for sizes that are multiples of 0x7FFA |
| Fup.OptionExtracts | tdt/flash/common/fup.src/fup.c:412-471 | A file created with one of the nine pairs of options is extracted under the type of its place in the list, with -10 under 16, with any other word under 1, and under no other type |
| Fup.BlockBytes | tdt/flash/common/fup.src/fup.c:199-242 | Each block of a container: the length of its payload plus 2 and the bit-serial CRC of the payload, both high byte first, then the payload |
| Fup.HeaderPayloadBytes | tdt/flash/common/fup.src/fup.c:210-223 | The header's payload is 16 bytes: 0x10, the reseller id, and at 8 the block count, high byte first, zeros between |
| Fup.DataPayloadBytes | tdt/flash/common/fup.src/fup.c:225-230 | A data payload is the type, the length of the piece, and the piece |
| Fup.ChunkSizes | tdt/flash/common/fup.src/fup.c:479-490 | A file makes one piece more than its length / 32762: all of 32762 bytes but the last, which has the remainder and may be empty |
| Fup.EditedImageExtracts | tdt/flash/common/fup.src/fup.c:372-671 | What was created and then edited any number of times extracts to the same files |
| Fup.EditsKeepBlocks | tdt/flash/common/fup.src/fup.c:631-669 | After any number of reseller edits the header is a block with matching CRC, the last id and the old block count, and no data block has changed |
| Fup.HeaderAfterEdits | tdt/flash/common/fup.src/fup.c:493-671 | After creation and any number of edits the bytes of the file hold: a header CRC that matches the payload, the number of data blocks modulo 2^16, and the unchanged data blocks |
| Fup.PartsDropped | tdt/flash/common/fup.src/fup.c:410-411 | All arguments become parts exactly when there are fewer than 128; with 128 nothing is stored |
| Fup.ChunksRejoin | tdt/flash/common/fup.src/fup.c:483-487 | The pieces of a file, the last one perhaps empty, make the file again |
| Fup.ExtractsChunks | tdt/flash/common/fup.src/fup.c:380-390 | Over the data blocks every step lands on the next block and no CRC mismatches |
| Fup.ReadsBlock | tdt/flash/common/fup.src/fup.c:244-271 | A written block is read where it stands: length, CRC and payload |
| Fup.EditedBlock | tdt/flash/common/fup.src/fup.c:493-513 | Rewriting a header field and then the CRC gives the block of the edited payload |
| Fup.InsertHeader | tdt/flash/common/fup.src/fup.c:151-163 | The edits hit the block count and the reseller id |
| Fup.File.Write | tdt/flash/common/fup.src/fup.c:235-236 | Writing within a file or at its end |
| Fup.ReadShort | tdt/flash/common/fup.src/fup.c:103-108 | The field at the position, or 0 at the end of the file |
| Fup.WriteBlock | tdt/flash/common/fup.src/fup.c:199-242 | One block of the next at most 0x7FFA bytes is appended; the count of bytes is returned |
| Fup.AppendPart | tdt/flash/common/fup.src/fup.c:479-490 | One file as blocks, with the counter modulo 2^16 |
| Fup.AppendParts | tdt/flash/common/fup.src/fup.c:410-491 | All the parts of the command line as blocks, with their count modulo 2^16 |
| Fup.Create | tdt/flash/common/fup.src/fup.c:401-518 | The created file is exactly the container of the parts named on the command line, with the block count modulo 2^16 and a matching header CRC |
| Fup.EditHeader | tdt/flash/common/fup.src/fup.c:493-513 | Payload and CRC rewritten in place, everything else kept |
| Fup.ChangeReseller | tdt/flash/common/fup.src/fup.c:631-672 | The reseller id of the first block, with the length kept in a byte as the code does |
| Fup.Extractor.Store | tdt/flash/common/fup.src/fup.c:264-320 | The files, counters and mismatches after one block |
| Fup.Extractor.constructor | tdt/flash/common/fup.src/fup.c:373-376 | No file is open |
| Fup.Extractor.ReadBlock | tdt/flash/common/fup.src/fup.c:244-323 | One block, or 0 when there is no whole one |
| Fup.Extractor.ExtractAll | tdt/flash/common/fup.src/fup.c:372-391 | The whole loop gives what the specification of extraction says, on every file |
| DepGraph.DfsKeepsReachable | tdt/cvs/cdk/dep-graph.py:166-195 | The walk neither loses nor gains a target reachable from the start |
| DepGraph.DfsBreaksLoops | tdt/cvs/cdk/dep-graph.py:166-195 | No loop through two targets is left in the reachable part |
| DepGraph.DfsAcyclicUpToSelfEdges | tdt/cvs/cdk/dep-graph.py:166-195 | A reachable target lies on a loop afterwards exactly when some reachable target listed itself before |
| DepGraph.DfsRemovesOnlyLoopEdges | tdt/cvs/cdk/dep-graph.py:189-192 | Only edges that close a loop of kept edges are removed, self edges never; unreachable targets keep their lists |
| DepGraph.DfsReports | tdt/cvs/cdk/dep-graph.py:180-199 | Each surviving reachable edge is reported exactly once, with its source on top of the walk, then the root with an empty walk, and nothing else |
| DepGraph.StepInv | tdt/cvs/cdk/dep-graph.py:170-195 | Every iteration keeps the invariant and decreases the edges ahead or the height of the stack |
| DepGraph.RunEnds | tdt/cvs/cdk/dep-graph.py:183-184 | The walk ends at the start with an empty stack |
| DepDuplicates.EndsIff | tdt/cvs/cdk/dep-graph.py:166-195 | For every graph and start the loop ends exactly when every dependency that a reachable target lists more than once, other than the target itself, is an edge that the walk on the lists without repetitions removes |
| DepDuplicates.EndsLikeDedup | tdt/cvs/cdk/dep-graph.py:166-195 | Whenever it ends, it has made the calls it makes without the repetitions; every reachable list is left as without them, except that a target may miss itself; unreachable lists are untouched |
| DepDuplicates.DuplicateNeverEnds | tdt/cvs/cdk/dep-graph.py:176-195 | If a reachable target lists another one twice from which it cannot be reached, no iteration ends the loop |
| DepDuplicates.RepetitionMayEnd | tdt/cvs/cdk/dep-graph.py:189-192 | A repetition that closes a loop does no harm: with a listing b and b listing a twice the loop ends, b listing nothing |
| DepDuplicates.EndsKeepReachable | tdt/cvs/cdk/dep-graph.py:166-195 | Whenever the walk ends, on any graph, it has neither lost nor gained a reachable target |
| DepDuplicates.EndsBreakLoops | tdt/cvs/cdk/dep-graph.py:166-195 | Whenever the walk ends, on any graph, no loop through two targets is left in the reachable part |
| DepDuplicates.EndsWithoutDuplicates | tdt/cvs/cdk/dep-graph.py:166-195 | On lists without repetitions the loop always ends, with the graph and the calls of Dfs |
| DepDuplicates.BadStuck | tdt/cvs/cdk/dep-graph.py:176-195 | Where the walk is about to go down to a target a second time, the source of that edge never leaves the stack again |
| DepDuplicates.Follow | tdt/cvs/cdk/dep-graph.py:170-195 | The walk and the one without repetitions go on together until both end, or the first is about to go down a second time |
| DepDuplicates.Once | tdt/cvs/cdk/dep-graph.py:170-195 | One iteration beside one or none of the other walk keeps their lists related |
| DepDuplicates.StuckForEver | tdt/cvs/cdk/dep-graph.py:170-195 | A target whose second entry of a kept dependency lies ahead stays on the stack in every further iteration |
| DepDuplicates.Walker.DFS | tdt/cvs/cdk/dep-graph.py:166-195 | On every graph on which it can, the loop on the global graph terminates, and leaves the graph and the calls of the specified walk |
| DepDuplicates.Walker.constructor | tdt/cvs/cdk/dep-graph.py:166-169 | The graph as given, nothing reported |
| DepString.NestUnparse | tdt/cvs/cdk/bb.py:1024-1049 | Nesting and writing out are inverse between token lists and lists in normal form |
| DepString.NestNormal | tdt/cvs/cdk/bb.py:1024-1049 | Only parentheses without a partner are left over |
| DepString.NestPlainIffBalanced | tdt/cvs/cdk/bb.py:494-497 | No parenthesis is left exactly when the tokens are balanced |
| DepString.NestSuffix | tdt/cvs/cdk/bb.py:1044-1046 | A suffix may be nested first, as the recursion does |
| DepString.NestGroup | tdt/cvs/cdk/bb.py:1040-1043 | A stretch without parentheses may be replaced by its list |
| DepString.FlattenNest | tdt/cvs/cdk/bb.py:555-570 | Flattening the nested form of balanced tokens gives their names in order |
| DepString.TokenList.DepParenReduce | tdt/cvs/cdk/bb.py:1024-1049 | Terminates on every token list and rewrites it in place, from the start position on, into its nested form |
| DepString.TokenList.ScanGroup | tdt/cvs/cdk/bb.py:1037-1047 | The inner loop with its recursion keeps the nested form of the list |
| DepString.Tokenize | tdt/cvs/cdk/bb.py:445-497 | The nested form of the tokens of the string, or nothing when the parentheses do not match |
| DepString.LexText | tdt/cvs/cdk/bb.py:445-497 | A text of words and single parentheses, with any white space around them and at least one blank between two words, is cut into exactly these words and parentheses |
| DepString.ParsersAgree | tdt/cvs/cdk/bb.py:445-497 | On matching parentheses both parsers give the same list; otherwise one gives nothing and a parenthesis stays in the other's result |
| Version.TotalPreorder | tdt/cvs/cdk/bb.py:904-990 | On valid versions vercmp is reflexive, antisymmetric in sign and transitive, and 0 exactly on versions with the same canonical key, for every rounding of floats that keeps the order |
| Version.CompareIsKeyOrder | tdt/cvs/cdk/bb.py:941-990 | The sign of vercmp is the lexicographic order of one canonical key per version, although padding and suffix position depend on the other argument, and although numbers are rounded |
| Version.NumbersInOrder | tdt/cvs/cdk/bb.py:941-990 | With exact numbers, of two versions that differ in the last component, without leading 0, the later is the one with more digits, or with the greater digit at the first difference (1.10 after 1.9); with rounded numbers never the other way round |
| Version.FractionsInOrder | tdt/cvs/cdk/bb.py:959-966 | A last component with a leading 0 is before every one without (1.05 before 1.1); of two with it the first greater digit decides, as behind a decimal point |
| Version.MoreIsLater | tdt/cvs/cdk/bb.py:968-978 | A further component that is not zero makes a version later than any suffix does; one of zeros makes no difference |
| Version.FirstDifferenceDecides | tdt/cvs/cdk/bb.py:981-990 | The first components with different numbers decide, whatever follows |
| Version.SuffixOrder | tdt/cvs/cdk/bb.py:575-607 | On one body alpha comes before beta, beta before pre, pre before rc, whatever the suffix numbers |
| Version.SuffixOrNone | tdt/cvs/cdk/bb.py:575-607 | Those four come before the version without a suffix, and p does not |
| Version.SuffixNumbersInOrder | tdt/cvs/cdk/bb.py:593-607 | Equal suffixes are in the order of the numbers behind them |
| Version.LettersInOrder | tdt/cvs/cdk/bb.py:608-626 | A letter makes a version later, and letters are in the order of the alphabet |
| Version.DifferIsKeyOrder | tdt/cvs/cdk/bb.py:981-990 | The loop from component x on decides the order of the remaining keys |
| Version.PaddedParsed | tdt/cvs/cdk/bb.py:957-983 | What relparse makes of a padded component: its own number and letter, zeros behind the end, the suffix in the last |
| Version.TripleOrder | tdt/cvs/cdk/bb.py:984-988 | A letter and a suffix weight, which exclude each other, compare in one field as they do in two |
| Version.SuffixedRelparse | tdt/cvs/cdk/bb.py:593-607 | A component with one of the five weighted suffixes: number, weight and suffix number |
| Version.KeyInjective | tdt/cvs/cdk/bb.py:923-923 | A cache key belongs to one pair of valid versions only |
| Version.AddPoints | tdt/cvs/cdk/bb.py:960-966 | A point in front of the components that start with 0, except the first |
| Version.Prepare | tdt/cvs/cdk/bb.py:941-978 | The two padded lists |
| Version.Compute | tdt/cvs/cdk/bb.py:941-990 | The uncached comparison |
| Version.VersionCache.Vercmp | tdt/cvs/cdk/bb.py:904-990 | With or without a cached entry the result of a fresh comparison; every entry stays one |
| Version.VersionCache.Store | tdt/cvs/cdk/bb.py:987-989 | A stored result keeps every entry equal to a fresh comparison |
| Version.VersionCache.constructor | tdt/cvs/cdk/bb.py:902-902 | The empty cache |
| Version.PackagePreorder | tdt/cvs/cdk/bb.py:995-1019 | The order of packages, by version and then revision, is a total preorder |
| Version.RevisionsInOrder | tdt/cvs/cdk/bb.py:1008-1019 | Packages compare by version; where the versions compare as equal, the greater revision number is later |
| Version.VersionCache.Pkgcmp | tdt/cvs/cdk/bb.py:995-1019 | -1, 0 or 1 in that order |
| Loopback.RequestsOneAtATime | tdt/cvs/driver/dvbloopback/dvb_loopback.c:260-348 | In every interleaving at most one published request is not completed, the daemon reads that one, and each at most once |
| Loopback.CallsReturnTheirAnswer | tdt/cvs/driver/dvbloopback/dvb_loopback.c:260-348 | In every interleaving each completed call returns to its own client exactly the value and data posted for that request; there is a post exactly when the command is not the number that marks an empty mailbox |
| Loopback.CallsReturnPostedBytes | tdt/cvs/driver/dvbloopback/dvb_loopback.c:260-348 | With the command given as dir * 2^30 + size * 2^16 + rest: a completed and answered call returns as its argument the size bytes behind the first four posted bytes if dir is 0 or 2, its own argument if dir is 1 or 3, and the 8 posted bytes if the command is below 10; its value is the signed number of the first four bytes, low byte first |
| Loopback.CollectGives | tdt/cvs/driver/dvbloopback/dvb_loopback.c:323-344 | The same for one collecting step |
| Loopback.RequestSize | tdt/cvs/driver/dvbloopback/dvb_loopback.c:277-288 | The length published with a request is 8 below command 10, and the size field otherwise |
| Loopback.ReservedCallReturnsOldValue | tdt/cvs/driver/dvbloopback/dvb_loopback.c:277-347 | The exception occurs: from every initial state with a client there is a run in which a call with that number completes without a post, with its argument unchanged and the value that was left in the mailbox |
| Loopback.CollectSucceeds | tdt/cvs/driver/dvbloopback/dvb_loopback.c:318-328 | The test after the wait never fails |
| Loopback.ReadRequestWaits | tdt/cvs/driver/dvbloopback/dvb_loopback.c:795-803 | A request that was read and not answered is still in the mailbox under its command |
| Loopback.EveryCallCanReturn | tdt/cvs/driver/dvbloopback/dvb_loopback.c:260-348 | No interleaving leaves a call stuck: from every reachable state there are steps after which any call that has begun has returned |
| Loopback.HolderCanEnd | tdt/cvs/driver/dvbloopback/dvb_loopback.c:270-348 | The call that holds the outer mutex can be brought to its end without a step of another client |
| Loopback.HelpfulHelps | tdt/cvs/driver/dvbloopback/dvb_loopback.c:270-348 | Whatever daemon and client are doing, one possible step brings that call closer to its end |
| Loopback.AnsweringHelps | tdt/cvs/driver/dvbloopback/dvb_loopback.c:602-835 | While the mailbox holds an unanswered request, the daemon has a step towards its answer, also out of a read or a wrong answer |
| Loopback.RunKeeps | tdt/cvs/driver/dvbloopback/dvb_loopback.c:260-348 | The invariant of mutexes, mailbox, clients, daemon and history holds in every reachable state |
| Loopback.StepKeeps | tdt/cvs/driver/dvbloopback/dvb_loopback.c:260-348 | Each of the 21 kinds of steps keeps it: locking, publishing in two steps, waiting, collecting and returning, and the daemon's reads and right, wrong or half-copied answers |
| Loopback.DvblbDevinfo.FakeIoctlPublish | tdt/cvs/driver/dvbloopback/dvb_loopback.c:277-288 | The mailbox after the first critical section |
| Loopback.DvblbDevinfo.FakeIoctlCollect | tdt/cvs/driver/dvbloopback/dvb_loopback.c:323-344 | Result and argument after the second critical section |
| Loopback.DvblbDevinfo.Read | tdt/cvs/driver/dvbloopback/dvb_loopback.c:602-670 | The message and the mark, or a failure without a change |
| Loopback.DvblbDevinfo.Reply | tdt/cvs/driver/dvbloopback/dvb_loopback.c:795-835 | The mailbox after an answer, a wrong one, or one that faults part way |
| Atr.RawIsInput | tdt/cvs/driver/smartcard/atr.c:68-204 | The bytes ATR_GetRaw prints for an accepted buffer are the first `length` bytes of the decoded input |
| Atr.Reparse | tdt/cvs/driver/smartcard/atr.c:423-459 | Parsing those bytes again succeeds with the same observable ATR |
| Atr.LaidParses | tdt/cvs/driver/smartcard/atr.c:68-204 | An answer to reset laid out from its levels of interface bytes, historical bytes and check byte, with anything behind it, parses to exactly these, or is refused where the first level's bytes are out of range |
| Atr.InverseParses | tdt/cvs/driver/smartcard/atr.c:78-87 | The same answer in the inverse convention parses alike |
| Atr.OverrunIff | tdt/cvs/driver/smartcard/atr.c:102-162 | The parser leaves its table of seven groups exactly on inputs with an eighth group, its bytes included |
| Atr.OverrunExists | tdt/cvs/driver/smartcard/atr.c:102-162 | 0x3B followed by 9 to 32 bytes 0x80 is such an input, within the 33 bytes of an answer to reset |
| Atr.TableCounts | tdt/cvs/driver/smartcard/atr.c:43-43 | The table gives the number of announced interface bytes |
| Atr.GroupsPrinted | tdt/cvs/driver/smartcard/atr.c:432-445 | The groups print as the bytes they were read from |
| Atr.GroupsCut | tdt/cvs/driver/smartcard/atr.c:102-162 | Bytes behind the groups do not change them |
| Atr.DecodedDirect | tdt/cvs/driver/smartcard/atr.c:78-87 | Decoded bytes are in the direct convention, and so is every prefix of them |
| Atr.InverseTwice | tdt/cvs/driver/smartcard/atr.c:82-82 | Decoding the inverse convention twice gives the byte back |
| Atr.InverseBits | tdt/cvs/driver/smartcard/atr.c:82-82 | Each bit of the result is the complement of the bit at the mirrored place |
| Atr.AtrData.Decode | tdt/cvs/driver/smartcard/atr.c:78-87 | The buffer in the direct convention |
| Atr.AtrData.StoreGroup | tdt/cvs/driver/smartcard/atr.c:110-160 | One row holds the announced bytes behind the position, the other rows are kept |
| Atr.AtrData.ReadGroups | tdt/cvs/driver/smartcard/atr.c:102-162 | The rows, the position and the check-byte flag the grammar gives, or a failure |
| Atr.AtrData.constructor | tdt/cvs/driver/smartcard/atr.c:68-72 | An empty structure with seven rows |
| Atr.AtrData.ReadGroup | tdt/cvs/driver/smartcard/atr.c:104-161 | One round of the loop: the next row, or a failure for missing bytes |
| Atr.AtrData.Finish | tdt/cvs/driver/smartcard/atr.c:164-201 | What follows the groups, with its failures |
| Atr.AtrData.InitFromArray | tdt/cvs/driver/smartcard/atr.c:68-204 | Accepts exactly the inputs of the grammar and fills the structure with what it gives |
| Atr.AtrData.GetRaw | tdt/cvs/driver/smartcard/atr.c:423-459 | The buffer holds the printed ATR |
| Atr.AtrData.PutRows | tdt/cvs/driver/smartcard/atr.c:432-445 | All rows behind the first two bytes |
| Ramzswap.Store.Read | tdt/cvs/driver/compcache/ramzswap.c:101-141 | A read gives the page last successfully written, or zeros if there was none or the last write failed |
| Ramzswap.Store.Write | tdt/cvs/driver/compcache/ramzswap.c:143-208 | A write succeeds exactly when compression and allocation do, and is then the page's contents; otherwise the page is empty; table and heap still fit |
| Ramzswap.Store.MakeRequest | tdt/cvs/driver/compcache/ramzswap.c:213-233 | Every request, valid or not, in terms of the history of writes |
| Ramzswap.Store.Exit | tdt/cvs/driver/compcache/ramzswap.c:414-430 | Every allocation ever made has been freed, each exactly once |
| Ramzswap.Store.constructor | tdt/cvs/driver/compcache/ramzswap.c:314-334 | Page 0 holds the swap header, the others are empty |
| Ramzswap.Store.Release | tdt/cvs/driver/compcache/ramzswap.c:160-164 | The old allocation is freed once and the entry is unused; other pages keep their contents |
| Ramzswap.Store.Fill | tdt/cvs/driver/compcache/ramzswap.c:168-207 | The new allocation holds the page, compressed or as it is, or nothing is kept |
| Ramzswap.Store.Kmalloc | tdt/cvs/driver/compcache/ramzswap.c:186-191 | A new allocation, filled with zeros |
| Ramzswap.Store.Kfree | tdt/cvs/driver/compcache/ramzswap.c:161-161 | Only a live allocation is freed, and it is dead afterwards |
| Ramzswap.Store.Fetch | tdt/cvs/driver/compcache/ramzswap.c:116-130 | The page from its stored bytes |
| Ramzswap.ValidIffPage | tdt/cvs/driver/compcache/ramzswap.c:64-77 | A request is accepted exactly when it is for one whole page inside the table |
| Ramzswap.Released | tdt/cvs/driver/compcache/ramzswap.c:160-164 | Freeing an entry's allocation leaves the others in one-to-one correspondence |
| Ramzswap.Filled | tdt/cvs/driver/compcache/ramzswap.c:186-195 | A new allocation for an unused entry keeps the correspondence |
| Ramzswap.Stored | tdt/cvs/driver/compcache/ramzswap.c:168-195 | Stored bytes and flags give the page back, with the round trip of LZO as the only axiom |

## Left out

- PtiStream.PtiDriver.ProcessPtiDma: the branch for discarded packets, which resets the DMA, and the error counters; a run with such a reset is outside the statements.
- PtiStream.PtiDriver.StreamInjector: demultiplexers are fixed during a run and `demultiplex_dvb_packets` is present; the SPARK7162 mapping of tags to sessions is not modelled.
- PidTable.RunKeeps: clearing or freeing a handle that is not one of the 32 reads outside the array in the code and is outside the runs.
- Mup.SwPack.AppendPartition: more than eight partitions or longer names overrun fixed arrays in the code and are excluded.
- Mup.SwPack.Parse: images whose headers point outside the file are excluded, as the code would read outside its buffer.
- Mup.SwInventory.Parse: the same for one slot.
- Mup.Verified: CRC-32 is an arbitrary function; its table is not modelled.
- Sha1.Digest: no equality with FIPS digests, because the word load is a parameter.
- Sha1.SHA1Ctx.Update: one call takes fewer than 2^32 bytes including the buffered ones, the limit `UpdateTestExact` gives; beyond it the code takes the wrong branch.
- Fup.Extractor.ExtractAll: a length field of 1 to 5 has no room for a block's fields and ends the extraction; the code reads outside its buffer there. Waiting for a key on a mismatch is a counter.
- Fup.Extractor.ReadBlock: a length field of 1 to 5 counts as no block, for the same reason.
- Fup.Create: the options come as pairs of an option and the contents of its file; opening files is not modelled. The variant with dummy headers (`-ce`), signing (`-s`, `-t`) and compression are not modelled.
- Fup.ChangeReseller: files whose first block is too short for the edited field are excluded.
- DepDuplicates.Walker.DFS: graphs on which the loop never ends are excluded; the message about a broken loop and the parsing of makefiles are not modelled.
- DepDuplicates.EndsLikeDedup: says that a target listing itself more than once may lose that entry, not for which orders of the list it does.
- DepString.Tokenize: the printed messages are not modelled.
- Version.CompareIsKeyOrder: versions are digits with at most one lower-case letter or one suffix among pre, p, alpha, beta and rc.
- Version.TotalPreorder: numbers of more than about 308 digits, which float() turns into infinity, whose difference is not a number.
- Version.VersionCache.Pkgcmp: a revision is a letter and digits.
- Loopback.CallsReturnTheirAnswer: signals, the resend of the close message and its timeout are outside; then a stale answer with an equal command number can be taken.
- Loopback.DvblbDevinfo.FakeIoctlCollect: the second copy that FE_GET_PROPERTY needs is not modelled.
- Loopback.DvblbDevinfo.Reply: the same on the daemon's side.
- Loopback.DvblbDevinfo.Read: property commands with nested arrays, and the integer passed in place of a buffer by commands without an argument, are not modelled.
- Atr.AtrData.InitFromArray: inputs that announce an eighth group are excluded; the convention, parameter and protocol getters are not modelled.
- Ramzswap.Store.Exit: the buffers of the compressor and the table itself are freed too and are not modelled; requests are handled one at a time.
- Ramzswap.Store.Kmalloc: names of allocations are never reused, unlike addresses.
- Register access without state to reason about: the AVS, boxtype, simu_button, i2c, e2_proc, cpu_frequ, CEC and bpamem drivers.
- The register and interrupt code of the smartcard driver, and device opening and mapping in the loopback driver.
- The prompts of mup: the answers are parameters, and the files' contents are given; listing, extracting and the other commands of its command line.
- The fetching of files and URLs in bb.py.
