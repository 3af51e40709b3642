# TCE/TTA device backend of pocl, in Dafny

This project models the host side of pocl's TCE/TTA device driver,
`lib/CL/devices/tce/tce_common.cc`. A TTA is a big-endian co-processor that
shares memory with the host. The driver:

- **configures memory** (`initMemoryManagement`): it finds the local, private
  and global address spaces of the machine description by their numerical
  ids, checks their sharing flags on a multi-core machine, sizes the two
  allocation regions and places the single command slot;
- **moves 32-bit words** to and from the device, byte-swapping them when the
  host is little-endian;
- **caches the resident kernel** (`isNewKernel`, `updateCurrentKernel`) so
  that `pocl_tce_compile_kernel` and `pocl_tce_run` can skip rebuilding and
  reloading;
- **allocates and transfers buffers** (`pocl_tce_malloc`, `alloc_mem_obj`,
  `write`/`read` and their rectangular forms);
- **launches a kernel** (`pocl_tce_run`): it marshals the arguments into a
  `__kernel_exec_cmd` record, taking temporary chunks for `__local` and
  scalar arguments. It then runs the handshake on the command slot:
  wait for FREE, write the record with status FREE, write READY, wait for
  FINISHED, write FREE. Finally it frees the temporaries;
- **schedules commands** (`tce_command_scheduler`, `submit`, `flush`, `join`,
  `notify`) over the ready list and the command list;
- **names the build** (`pocl_tce_build_hash`): `"tce-"`, then two letters per
  digest byte, then `'_'`, then the extra compiler flags.

How each part is modelled:

- **Device memory** is a map from address to byte. The device object keeps
  a log of every access. Its memory is always the replay of that log over
  the initial memory, so properties about ordering (what was written when,
  what was freed after what) are stated about the log.
- **Values the driver gets from code it calls but does not contain** become
  parameters:
  - whether the program loaded;
  - the metadata symbol's address;
  - whether the work-group generator and `tcecc` succeeded;
  - whether `parallel.tpef` exists;
  - whether a command's dependencies are met;
  - the sequence of status values the device leaves in the command slot;
  - what the uninitialised `dev_cmd` record holds in the argument slots that
    no argument fills.
- **`POCL_ABORT`** is a failure outcome.
- **The allocator** the driver uses (`alloc_buffer`, `free_chunk`,
  `create_sub_chunk`) is modelled abstractly: it hands out fresh chunks,
  disjoint from every live chunk, or it fails.

Modules:

| file | module | what it holds |
|---|---|---|
| words.dfy | Words | bytes, words, `byteswap_uint32_t` |
| devmem.dfy | DeviceMemory | memory map, access log, word reads and writes |
| allocator.dfy | Allocator | the chunk allocator contract |
| execcmd.dfy | ExecCommand | the command record and its byte image |
| addrspace.dfy | AddressSpaces | memory configuration as a function |
| launch.dfy | Launch | what a launch marshals and logs, as values |
| rect.dfy | Rect | rectangular transfer geometry |
| device.dfy | Tce | the `TceDevice` class and its `pocl_tce_*` entry points |
| scheduler.dfy | Scheduler | the `CommandScheduler` class |
| buildhash.dfy | BuildHash | the build-hash name, its decoder, and the array-building method |
| wrappers.dfy | Wrappers | `Option` and `Result` |

Line 187 computes the global size from the *local* space's start. It is
modelled as written: `AddressSpaces.GlobalSize` is that formula, and
`AddressSpaces.GlobalRegionOverrunsGlobalSpace` exhibits a machine where
the global region then extends past the end of the global address space.
Both sizes (lines 180 and 187) are held in a C `int`. The model cuts them to
32 bits, two's complement (`Words.Int32`), before the sign tests at lines 183
and 188. `AddressSpaces.GlobalSizeNarrowedAborts` shows a global space
reaching 0xFFFFFFFF that is refused as too small.

## Model

| member | source | states |
|---|---|---|
| Words.ToWord | lib/CL/devices/tce/tce_common.cc:520 | an address stored into a 32-bit field is unchanged when it fits in 32 bits, and congruent to it modulo 2^32 otherwise |
| Words.FromBigEndianOfBigEndian | lib/CL/devices/tce/tce_common.cc:112-116 | reassembling a word's four big-endian bytes gives the word back |
| Words.BigEndianOfFromBigEndian | lib/CL/devices/tce/tce_common.cc:106-109 | splitting the word built from four bytes gives those bytes back |
| Words.Int32 | lib/CL/devices/tce/tce_common.cc:180-187 | a C `int` conversion: the result lies in [-2^31, 2^31), is congruent to the input modulo 2^32, and equals it when it already fits |
| Words.ByteSwapReversesBytes | lib/CL/devices/tce/tce_common.cc:503 | `byteswap_uint32_t` with the flag set gives the word whose big-endian bytes are the input's in reverse order; without it, the word itself |
| Words.ByteSwapInvolutive | lib/CL/devices/tce/tce_common.cc:503 | swapping twice with the same flag is the identity |
| Words.SwappedWordIsBigEndianInMemory | lib/CL/devices/tce/tce_common.cc:106-109 | a word swapped per the flag lies in host memory in the device's big-endian order, on either host byte order |
| Words.HostReadOfBigEndian | lib/CL/devices/tce/tce_common.cc:112-116 | big-endian bytes read by the host and swapped per the flag give the word they encode |
| DeviceMemory.ReadBytes | lib/CL/devices/tce/tce_common.cc:114 | a raw read returns n bytes, byte i being the byte at address a+i |
| DeviceMemory.WriteBytesAt | lib/CL/devices/tce/tce_common.cc:108 | a raw write sets exactly the bytes it covers to the data and leaves every other address unchanged |
| DeviceMemory.ReadAfterWrite | lib/CL/devices/tce/tce_common.cc:351-373 | reading back the range just written returns the data written |
| DeviceMemory.ReadOutsideWrite | lib/CL/devices/tce/tce_common.cc:351-360 | a write leaves every range it does not overlap unchanged |
| DeviceMemory.WordImageIsBigEndian | lib/CL/devices/tce/tce_common.cc:106-109 | the bytes `writeWordToDevice` sends are the word's big-endian bytes, whatever the host's order |
| DeviceMemory.ReadWordOfImage | lib/CL/devices/tce/tce_common.cc:112-116 | four bytes holding a word's image read back as that word |
| DeviceMemory.WordReadAfterWrite | lib/CL/devices/tce/tce_common.cc:106-116 | a word read after a word write to the same address returns the value written, for either swap setting |
| DeviceMemory.DeviceStoreReadBack | lib/CL/devices/tce/tce_common.cc:589-590 | a status the device stores in its own byte order is exactly what the host's next word read returns |
| DeviceMemory.ReplaySnoc | lib/CL/devices/tce/tce_common.cc:108 | logging one more access keeps memory equal to the replay of the log |
| Allocator.InitRegion | lib/CL/devices/tce/tce_common.cc:193-197 | an initialised region has the given start and size, no live chunks, and satisfies the allocator invariant |
| Allocator.Alloc | lib/CL/devices/tce/tce_common.cc:297-298 | either fails and leaves the region unchanged, or returns a fresh chunk of the requested size inside the region, disjoint from every live chunk, and adds it to the live set; the invariant is kept |
| Allocator.Free | lib/CL/devices/tce/tce_common.cc:394-398 | freeing removes exactly that chunk from the live set and keeps the invariant |
| Allocator.SubChunk | lib/CL/devices/tce/tce_common.cc:376-384 | a sub-buffer is a view of `size` bytes at `origin` inside its parent chunk, linked to the parent |
| ExecCommand.Fields | lib/CL/devices/tce/tce_common.cc:502-580 | the record's words in memory order: status, kernel, the argument words, work_dim, three num_groups, three global_offset |
| ExecCommand.WordsBytesAt | lib/CL/devices/tce/tce_common.cc:595 | word i of the record occupies bytes 4i to 4i+4 of the bulk-written image |
| ExecCommand.DeviceSeesField | lib/CL/devices/tce/tce_common.cc:571-578 | the image is `sizeof(__kernel_exec_cmd)` bytes, and every field stored byte-swapped reaches the device as the big-endian bytes of the host's value |
| ExecCommand.BulkWriteLeavesSlotFree | lib/CL/devices/tce/tce_common.cc:580-595 | after the bulk write of a record whose status was encoded FREE, the slot still reads FREE |
| ExecCommand.ReadyWriteKeepsFields | lib/CL/devices/tce/tce_common.cc:595-602 | the READY write changes only the status word: the slot reads READY and every other field keeps its bulk-written bytes |
| AddressSpaces.LastWithRole | lib/CL/devices/tce/tce_common.cc:143-155 | the scan binds a role to the last space carrying its ids, or to none when no space carries them |
| AddressSpaces.MissingRoleFails | lib/CL/devices/tce/tce_common.cc:156-178 | a machine lacking a local, private or global (ids 3 and 5) space is refused, the missing local space first |
| AddressSpaces.SharingMismatchFails | lib/CL/devices/tce/tce_common.cc:156-178 | on a multi-core machine, a shared local or private space or an unshared global space is refused |
| AddressSpaces.Configure | lib/CL/devices/tce/tce_common.cc:138-198 | a successful configuration publishes a local and a global size that are not negative and fit a C `int`, the global size as the largest allocation, and a global region starting one command record after the slot |
| AddressSpaces.ConfigureSucceedsExactlyWhen | lib/CL/devices/tce/tce_common.cc:138-198 | configuration succeeds if and only if all three roles are bound, the sharing flags suit the machine, and neither size, cut to a C `int`, is negative |
| AddressSpaces.ConfiguredLayout | lib/CL/devices/tce/tce_common.cc:180-197 | local size is the length less the reservation exactly when local and private are the same space; global size is global end less local start less the reservation; both are cut to a C `int`; the global size equals the largest allocation; the slot follows the global reservation and the global region starts one record after it |
| AddressSpaces.SingleCoreIgnoresSharing | lib/CL/devices/tce/tce_common.cc:156-178 | on a single-core machine the sharing flags do not affect the outcome |
| AddressSpaces.GlobalRegionOverrunsGlobalSpace | lib/CL/devices/tce/tce_common.cc:187-191 | with the local space below the global one, the configured global region runs past the global space's end |
| AddressSpaces.GlobalSizeNarrowedAborts | lib/CL/devices/tce/tce_common.cc:187-189 | a global space [65536, 0xFFFFFFFF] over a local space at 0 gives a global size of -2049 once held in an `int`, and the configuration aborts for lack of global memory |
| Launch.AllArgs | lib/CL/devices/tce/tce_common.cc:555-570 | after the declared arguments come the automatic locals, each allocated like a `__local` argument |
| Launch.ArgWords | lib/CL/devices/tce/tce_common.cc:511-552 | argument word i is 0 for a null pointer, the swapped start of the buffer's chunk for a pointer, and the swapped start of its temporary chunk otherwise |
| Launch.MarshalTraceShape | lib/CL/devices/tce/tce_common.cc:511-570 | marshalling (every `StepTrace` of `MarshalTrace`) makes at most two accesses per argument, only allocations and host writes, and each write is a scalar's bytes at the start of the chunk allocated just before it |
| Launch.MarshalLogIsAppend | lib/CL/devices/tce/tce_common.cc:511-570 | the log after marshalling is the log before followed by marshalling's own accesses |
| Launch.StepAllocs | lib/CL/devices/tce/tce_common.cc:513-551 | marshalling one argument allocates the chunk it took, if any, and frees nothing |
| Launch.MarshalAllocatesTemps | lib/CL/devices/tce/tce_common.cc:511-570 | marshalling allocates exactly the chunks pushed to `tempChunks`, in push order, and frees nothing |
| Launch.FreeTrace | lib/CL/devices/tce/tce_common.cc:630-632 | the closing loop frees the temporaries one by one in push order |
| Launch.FreeTraceFrees | lib/CL/devices/tce/tce_common.cc:630-632 | the closing loop frees exactly the temporaries, and allocates and writes nothing |
| Launch.PollTraceIsQuiet | lib/CL/devices/tce/tce_common.cc:614-622 | polling writes, allocates and frees nothing |
| Launch.PollTraceLength | lib/CL/devices/tce/tce_common.cc:589-590 | a busy-wait logs two accesses per poll |
| Launch.HandshakeTraceShape | lib/CL/devices/tce/tce_common.cc:588-632 | the handshake's log is, at these positions: the wait for FREE, the whole record, READY, the wait for FINISHED, FREE, then one free per temporary in push order |
| Launch.PollStep | lib/CL/devices/tce/tce_common.cc:589-590 | each poll extends the log by one device store and one host read, and the wait stops at the first sighting of its target |
| Launch.HandshakeWrites | lib/CL/devices/tce/tce_common.cc:588-632 | the handshake's host writes are, in order, the whole record, READY as a separate word, then FREE; it frees exactly the temporaries and allocates nothing |
| Launch.LaunchFreesWhatItAllocates | lib/CL/devices/tce/tce_common.cc:509-632 | over marshalling plus handshake, the chunks freed are exactly the chunks allocated, in the same order |
| Launch.LaunchRecord | lib/CL/devices/tce/tce_common.cc:502-580 | the launch record has the layout of `__kernel_exec_cmd`: MAX_KERNEL_ARGS argument slots, three group counts, three offsets |
| Launch.LaunchRecordFields | lib/CL/devices/tce/tce_common.cc:502-580 | the record holds the argument words in their slots and the stale words of the uninitialised record in the rest; swapping its other fields back gives status FREE, the kernel address, work_dim, the group counts and the offsets |
| Launch.LaunchRecordOwnTail | lib/CL/devices/tce/tce_common.cc:502 | a launch record refilled over its own argument slots is unchanged, so a completed launch can be stated for whatever the slots held |
| Launch.DeviceDecodesLaunch | lib/CL/devices/tce/tce_common.cc:502-595 | the device finds status FREE, the kernel address, every argument word, work_dim, the three group counts and the three offsets, each at its offset in big-endian order |
| Launch.LaunchCompletes | lib/CL/devices/tce/tce_common.cc:502-641 | marshalling followed by a completed handshake that freed the temporaries is a completed launch |
| Launch.CompletedLaunchBalanced | lib/CL/devices/tce/tce_common.cc:509-632 | in a completed launch, the chunks freed equal the chunks allocated, in order |
| Rect.RectRowAt | lib/CL/devices/tce/tce_common.cc:816-825 | row copy number k·region[1]+j is row j of slice k, out of region[1]·region[2] copies |
| Rect.RectRowIs | lib/CL/devices/tce/tce_common.cc:819-822 | that copy has the buffer offset and host offset the loop body computes |
| Rect.RectRowsAreRegionWide | lib/CL/devices/tce/tce_common.cc:816-825 | every copy of `RectTransfers` moves one row of region[0] bytes |
| Rect.RectCount | lib/CL/devices/tce/tce_common.cc:816-817 | a rect transfer makes region[1]·region[2] row copies |
| Rect.RectTransferAt | lib/CL/devices/tce/tce_common.cc:806-825 | copy k·region[1]+j moves region[0] bytes at buffer offset origin[0] + row_pitch·(origin[1]+j) + slice_pitch·(origin[2]+k), and likewise on the host side |
| Rect.SpliceAt | lib/CL/devices/tce/tce_common.cc:857 | a row read into host memory sets the bytes it covers and keeps the rest |
| Tce.FirstReusable | lib/CL/devices/tce/tce_common.cc:325-338 | finds the first available entry with the same global memory id and a chunk, or reports that none exists |
| Tce.RowWritesLast | lib/CL/devices/tce/tce_common.cc:816-825 | row n of a rect write sets the device bytes it covers from the host row and leaves the others as earlier rows left them |
| Tce.RowWritesUntouched | lib/CL/devices/tce/tce_common.cc:816-825 | a device byte no row covers is unchanged by a rect write |
| Tce.RowWritesCovered | lib/CL/devices/tce/tce_common.cc:816-825 | a device byte holds the host byte of the last row covering it |
| Tce.HostAfterReadsLast | lib/CL/devices/tce/tce_common.cc:850-858 | row n of a rect read sets the host bytes it covers from the device and leaves the others |
| Tce.HostAfterReadsUntouched | lib/CL/devices/tce/tce_common.cc:850-858 | a host byte no row covers is unchanged by a rect read |
| Tce.HostAfterReadsCovered | lib/CL/devices/tce/tce_common.cc:850-858 | a host byte holds the device byte of the last row covering it |
| Tce.TceDevice.constructor | lib/CL/devices/tce/tce_common.cc:65-79 | no address space bound, no kernel resident, kernel address 0, and the swap flag set exactly on a little-endian host |
| Tce.TceDevice.CopyHostToDevice | lib/CL/devices/tce/tce_common.cc:108 | memory gets the bytes written and the log records the write |
| Tce.TceDevice.CopyDeviceToHost | lib/CL/devices/tce/tce_common.cc:114 | returns the bytes in memory and logs the read |
| Tce.TceDevice.WriteWordToDevice | lib/CL/devices/tce/tce_common.cc:106-109 | writes the word's swapped image, and a later word read returns the value written |
| Tce.TceDevice.ReadWordFromDevice | lib/CL/devices/tce/tce_common.cc:112-116 | reads four bytes and returns them swapped per the flag |
| Tce.TceDevice.BindAddressSpaces | lib/CL/devices/tce/tce_common.cc:143-155 | the scan loop leaves each role bound to the last space carrying it |
| Tce.TceDevice.InitMemoryManagement | lib/CL/devices/tce/tce_common.cc:138-198 | returns exactly what `Configure` returns; on success sets the sizes, cut to a C `int`, and initialises both regions, the global one past the command slot; on failure initialises no region |
| Tce.TceDevice.SizeRegions | lib/CL/devices/tce/tce_common.cc:156-197 | the checks and sizing, with both sizes held in a C `int`, agree with `Configure`, and a region is initialised only on success |
| Tce.TceDevice.FindDataMemoryAddresses | lib/CL/devices/tce/tce_common.cc:119-129 | the command slot is the global space's start plus the reservation |
| Tce.TceDevice.InitDataMemory | lib/CL/devices/tce/tce_common.cc:132-135 | places the slot and writes FREE there, so the slot reads FREE |
| Tce.TceDevice.IsNewKernel | lib/CL/devices/tce/tce_common.cc:264-277 | false if and only if the same kernel is resident with the same local_x, local_y and local_z |
| Tce.TceDevice.UpdateCurrentKernel | lib/CL/devices/tce/tce_common.cc:281-289 | caches the kernel, its local size and its address, after which the command is no longer new |
| Tce.TceDevice.CompileKernel | lib/CL/devices/tce/tce_common.cc:401-454 | only NDRange commands compile; the work-group function is always generated first; `tcecc` runs exactly for a new kernel without `parallel.tpef`; the cache is untouched |
| Tce.TceDevice.Malloc | lib/CL/devices/tce/tce_common.cc:292-314 | allocates from global memory and copies the host data exactly when COPY_HOST_PTR is set, or USE_HOST_PTR with a host pointer; a failed allocation logs nothing |
| Tce.TceDevice.MallocLocal | lib/CL/devices/tce/tce_common.cc:387-391 | allocates from local memory, or fails with the region unchanged |
| Tce.TceDevice.AllocMemObj | lib/CL/devices/tce/tce_common.cc:317-348 | reuses the first reusable entry's chunk without allocating; otherwise allocates, returning CL_MEM_OBJECT_ALLOCATION_FAILURE with the entries unchanged on failure |
| Tce.TceDevice.Write | lib/CL/devices/tce/tce_common.cc:351-360 | writes the host bytes at chunk start plus offset, where they then read back |
| Tce.TceDevice.Read | lib/CL/devices/tce/tce_common.cc:363-373 | returns the bytes at chunk start plus offset |
| Tce.TceDevice.WriteRow | lib/CL/devices/tce/tce_common.cc:819-823 | one row write extends the rect write's log and memory by that row |
| Tce.TceDevice.WriteRect | lib/CL/devices/tce/tce_common.cc:795-826 | logs one write per row, slices outer and rows inner, and memory becomes the replay of those writes |
| Tce.TceDevice.ReadRow | lib/CL/devices/tce/tce_common.cc:853-857 | one row read extends the rect read's log and host image by that row |
| Tce.TceDevice.ReadRect | lib/CL/devices/tce/tce_common.cc:829-859 | logs one read per row in the same order, and host memory ends with every row copied in |
| Tce.TceDevice.FreeChunkOf | lib/CL/devices/tce/tce_common.cc:397 | the chunk goes back to its own region and the other region is untouched |
| Tce.TceDevice.FreeMemObj | lib/CL/devices/tce/tce_common.cc:394-398 | frees this device's chunk of the buffer |
| Tce.TceDevice.SelectKernel | lib/CL/devices/tce/tce_common.cc:469-501 | a new kernel is loaded, restarted, its symbol looked up and cached, or the launch aborts; a resident one is only restarted and reuses the cached address |
| Tce.TceDevice.Poll | lib/CL/devices/tce/tce_common.cc:590 | a poll returns the status the device left in the slot |
| Tce.TceDevice.AwaitStatus | lib/CL/devices/tce/tce_common.cc:589-590 | the busy-wait stops at the first sighting of its target, or never ends when the device never shows it |
| Tce.TceDevice.MarshalRange | lib/CL/devices/tce/tce_common.cc:511-552 | a marshalling loop keeps the marshalling state over its range, or aborts for lack of local or global memory |
| Tce.TceDevice.MarshalOne | lib/CL/devices/tce/tce_common.cc:513-551 | a local argument takes a local chunk of `al->size` bytes, a scalar a global chunk of its value's size holding that value, a pointer nothing; a failed allocation aborts with the matching reason |
| Tce.TceDevice.FreeTemps | lib/CL/devices/tce/tce_common.cc:630-632 | frees every temporary in push order, each from its own region |
| Tce.TceDevice.Handshake | lib/CL/devices/tce/tce_common.cc:588-632 | wait FREE, bulk write, READY, wait FINISHED, FREE, then free the temporaries; a wait that never ends frees nothing |
| Tce.TceDevice.Exchange | lib/CL/devices/tce/tce_common.cc:588-628 | the handshake's log, in order, and the slot reading FREE at the end |
| Tce.TceDevice.Run | lib/CL/devices/tce/tce_common.cc:457-641 | aborts exactly on a load failure or a missing symbol for a new kernel; on completion the kernel is resident, each argument's chunk lies in its region and has the size asked for it, the record is the launch record of the chunks' argument words over whatever the uninitialised record's other slots held, the log is selection then marshalling then handshake, the regions are back to what they held, and the slot reads FREE |
| Tce.TceDevice.LaunchKernel | lib/CL/devices/tce/tce_common.cc:502-641 | marshal, build the record and hand it over; aborts only for lack of memory |
| Tce.TceDevice.MarshalArgs | lib/CL/devices/tce/tce_common.cc:511-570 | both marshalling loops, declared arguments then automatic locals |
| Tce.TceDevice.BuildRecord | lib/CL/devices/tce/tce_common.cc:502-580 | the record filled field by field is the launch record: each field swapped per the device, the argument words in the slots of actual arguments, the other slots keeping the stale contents of the uninitialised record, status FREE |
| Scheduler.DrainLogAppend | lib/CL/devices/tce/tce_common.cc:866-876 | draining two lists in turn logs the two drains in turn |
| Scheduler.DrainLogShape | lib/CL/devices/tce/tce_common.cc:866-876 | `DrainLog` takes one or two actions per command and acts on no command outside the drained list |
| Scheduler.DrainExecutes | lib/CL/devices/tce/tce_common.cc:866-876 | the drain executes exactly the drained commands, in list order |
| Scheduler.DrainCompiles | lib/CL/devices/tce/tce_common.cc:872-873 | a command is compiled if and only if it is drained and is an NDRange launch |
| Scheduler.CompileThenExec | lib/CL/devices/tce/tce_common.cc:872-874 | every compile is immediately followed by the execution of the same command |
| Scheduler.Remove | lib/CL/devices/tce/tce_common.cc:938 | deleting a node removes exactly it, keeps the others, and shortens a duplicate-free list by one |
| Scheduler.CommandScheduler.Drain | lib/CL/devices/tce/tce_common.cc:861-879 | empties the ready list head first, logging the drain of its old contents, and keeps the list invariant |
| Scheduler.CommandScheduler.Submit | lib/CL/devices/tce/tce_common.cc:882-896 | marks the node ready, pushes it to the ready list (SUBMITTED) or the command list (QUEUED), then drains |
| Scheduler.CommandScheduler.Flush | lib/CL/devices/tce/tce_common.cc:898-905 | drains the ready list |
| Scheduler.CommandScheduler.Join | lib/CL/devices/tce/tce_common.cc:909-918 | drains the ready list |
| Scheduler.CommandScheduler.Notify | lib/CL/devices/tce/tce_common.cc:921-945 | a failed trigger fails the event and changes no list; a ready, queued command with met dependencies becomes SUBMITTED, moves from the command list to the front of the ready list, and is drained; anything else changes nothing |
| BuildHash.LowLetter | lib/CL/devices/tce/tce_common.cc:736 | the first letter of a byte is in 'A'..'P' and encodes its low nibble |
| BuildHash.HighLetter | lib/CL/devices/tce/tce_common.cc:737 | the second letter of a byte is in 'A'..'P' and encodes its high nibble |
| BuildHash.ByteOf | lib/CL/devices/tce/tce_common.cc:734-738 | a letter pair decodes if and only if both letters are in 'A'..'P', and the byte it gives encodes back to that pair |
| BuildHash.ByteOfLetters | lib/CL/devices/tce/tce_common.cc:734-738 | the letter pair of every byte decodes to that byte |
| BuildHash.Letters | lib/CL/devices/tce/tce_common.cc:734-738 | the digest's letters are two per byte and contain no NUL |
| BuildHash.LettersAt | lib/CL/devices/tce/tce_common.cc:736-737 | byte j of the digest becomes letters 2j (low nibble) and 2j+1 (high nibble) |
| BuildHash.Header | lib/CL/devices/tce/tce_common.cc:730-740 | the header before the flags is 45 characters and contains no NUL |
| BuildHash.Copied | lib/CL/devices/tce/tce_common.cc:742-746 | the copied flags are nothing when the option is unset, and otherwise the longest prefix that fits the limit |
| BuildHash.HashBuffer | lib/CL/devices/tce/tce_common.cc:730-746 | the result buffer is 1000 characters |
| BuildHash.CString | lib/CL/devices/tce/tce_common.cc:748 | the string a C caller sees is the prefix before the first NUL, or none when the buffer has no NUL |
| BuildHash.AsWrittenUnterminated | lib/CL/devices/tce/tce_common.cc:745 | as written, flags of 955 or more characters leave the 1000-byte result with no terminating NUL |
| BuildHash.CorrectedTerminated | lib/CL/devices/tce/tce_common.cc:742-746 | with a copy count one smaller, the result is always terminated and reads as the header followed by the copied flags |
| BuildHash.DecodeLetters | lib/CL/devices/tce/tce_common.cc:734-738 | a successful decoding of n letter pairs gives n bytes |
| BuildHash.DecodeName | lib/CL/devices/tce/tce_common.cc:730-740 | a successfully decoded name yields a 20-byte digest |
| BuildHash.DecodeLettersAt | lib/CL/devices/tce/tce_common.cc:734-738 | decoded byte j is the byte of letter pair j |
| BuildHash.DecodeLettersSome | lib/CL/devices/tce/tce_common.cc:734-738 | decoding succeeds if and only if every letter pair is in 'A'..'P' |
| BuildHash.DecodeLettersOf | lib/CL/devices/tce/tce_common.cc:734-738 | decoding the letters of a digest gives the digest |
| BuildHash.LettersOfDecode | lib/CL/devices/tce/tce_common.cc:734-738 | encoding a successful decoding gives back the letters decoded |
| BuildHash.NameRoundTrip | lib/CL/devices/tce/tce_common.cc:730-746 | decoding a build name gives back the digest and the copied flags |
| BuildHash.DecodeNameSpells | lib/CL/devices/tce/tce_common.cc:730-746 | every decodable name is exactly the header of its digest followed by its flags, so the encoding is onto the decodable names |
| BuildHash.StrNCopy | lib/CL/devices/tce/tce_common.cc:745 | `strncpy`: copies the source's characters, pads with NUL up to n, and leaves the rest of the array unchanged |
| BuildHash.WriteHeader | lib/CL/devices/tce/tce_common.cc:730-740 | writes "tce-", the letter pair of every digest byte and '_', and leaves a NUL after it |
| BuildHash.BufferIs | lib/CL/devices/tce/tce_common.cc:730-746 | a buffer laid out that way is the build-hash buffer |
| BuildHash.BuildHashBuffer | lib/CL/devices/tce/tce_common.cc:730-748 | the array built is a fresh 1000-character buffer equal to the corrected build-hash buffer |

## Left out

- SHA-1 of the machine description file and the file reading in `pocl_tce_build_hash` (lines 712-728): file I/O and a cryptographic primitive. The digest is a parameter.
- The `POCL_TCECC_EXTRA_FLAGS` lookup (lines 742-744): environment access. The option's value, or its absence, is a parameter.
- `tceccCommandLine` (lines 204-261) and `pocl_tce_init_build` (lines 668-706): shell command strings built from environment options and paths, and run with `system()`.
- Program loading, `restartProgram` and the symbol-table lookup (lines 478-494): calls into the TCE libraries. Their success and the symbol's address are parameters.
- `pocl_llvm_generate_workgroup_function` (line 416) and the `tcecc` run (line 447): external tools. Their success and whether `parallel.tpef` exists are parameters.
- Tce.TceDevice.CompileKernel: a failed work-group generation stops the compilation with `WorkGroupGenerationFailed`, reading the `assert(error == 0)` at line 425 as fatal. In a build with `NDEBUG` the source goes on to the `tcecc` step instead.
- `pocl_tce_copy` and `pocl_tce_copy_rect` (lines 752-792): they abort as unimplemented before doing anything.
- `pocl_tce_map_mem` (lines 644-665): a host `posix_memalign` followed by a read that `Tce.TceDevice.Read` covers.
- `pocl_tce_broadcast` (lines 948-951): a call into the event layer, which is not part of this model.
- `isMultiCoreMachine` (lines 84-93): a parameter of the configuration.
- The locks `cq_lock` and `tce_compile_lock`, the unlocked window around execution, and the `usleep` in the wait loop: concurrency and timing. The scheduler runs sequentially.
- The internals of `alloc_buffer`, `free_chunk` and `create_sub_chunk`: not part of this model. A bump allocator stands in; it meets the contract the driver relies on.
- `pocl_command_push` is not part of this model: it is given whether the command's dependencies are met. A ready command is appended to the ready list, any other to the command list.
- `pocl_exec_command` is not part of this model: execution is logged and changes no list or status.
- `POCL_UPDATE_EVENT_FAILED`, `POCL_UPDATE_EVENT_SUBMITTED` and `pocl_command_is_ready`: the first two are modelled as setting the status, the third as the `depsMet` parameter.
- Scheduler.CommandScheduler.Notify: requires that a command whose trigger failed is not already on the ready list, because the list invariant ties the ready list to SUBMITTED status.
- The `__kernel_exec_cmd` layout, the `POCL_KST_*` values, `MAX_KERNEL_ARGS`, `TTA_UNALLOCATED_*_SPACE` and the `CL_MEM_*` flag values come from headers that are not part of this model. Their values are fixed constants, and the status word is placed at offset 0 because the driver polls and writes it at the slot's own address.
- A device that never shows the status a busy-wait expects: the wait runs over a finite script of status values and ends as `Hung` when the script runs out.
- Addresses are unbounded integers, except where the driver stores them into 32-bit record fields (`Words.ToWord`) and where it holds the local and global sizes in a C `int` (lines 180 and 187, `Words.Int32`). The `cl_ulong` device fields that receive the sizes are not narrowed, since the stored values are never negative.
- The host-side copy of the READY status (line 604) and `notifyKernelRunCommandSent` (line 606): the hook is a virtual method of device subclasses that are not part of this model, and the model treats it as touching neither device memory nor the access log. The host copy of the status is read only by that hook.
- Tce.TceDevice.Run: requires that the declared arguments and the automatic locals together number at most MAX_KERNEL_ARGS (`WellFormedRun`), and so do `LaunchKernel`, `MarshalArgs` and `BuildRecord`. The source does not check this; with more, its writes to `dev_cmd.args[i]` (lines 520-549 and 564) run past the record's argument array, which the model does not represent.
- Tce.TceDevice.FreeMemObj: states the effect only for a chunk of global memory, which is the only region `pocl_tce_malloc` allocates buffers from.
- BuildHash.BuildHashBuffer: builds the corrected buffer, whose copy count is one smaller than the source's.

## Findings

| source | as written | input that shows it | evidently intended | confidence | as-written member | corrected member |
|---|---|---|---|---|---|---|
| lib/CL/devices/tce/tce_common.cc:745 | `strncpy` copies up to 1000 − 45 = 955 characters into the last 955 bytes of the 1000-byte buffer, so no terminating NUL is left | `POCL_TCECC_EXTRA_FLAGS` set to 955 or more characters | a NUL-terminated name, with the flags cut to 954 characters | not executed | BuildHash.AsWrittenUnterminated | BuildHash.CorrectedTerminated |
