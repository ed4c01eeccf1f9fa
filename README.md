# cpp_python_stacktrace: the remote-introspection engine, modelled in Dafny

cpp_python_stacktrace dumps the Python 2.7 call stacks of another, running
process. The process is not cooperating. The dumper seizes it with the
kernel's trace facility (`ptrace`) and stops it. It then finds the
interpreter's global symbols. These come from the executable or from
libpython, relocated by the load address in `/proc/<pid>/maps`. After that
it reads the target's memory one 8-byte word at a time. It walks the
interpreter's thread-state list, then each thread's chain of frame objects.
For each frame it reports the file name, the function name and the line
number. The line number is decoded from the code object's `co_lnotab`
table.

The model keeps the source's split:

| module | source | what it holds |
|---|---|---|
| `Wrappers` | include/custom_exceptions.h | the four exception classes as one `Error` datatype; `Result`, and `Run` for loops the source does not bound |
| `Remote` | src/ptrace_wrapper.cpp | word peeks with their errno protocol; `ptrace_peek_bytes` over a fresh array; `ptrace_peek_string` |
| `Control` | src/ptrace_wrapper.cpp | the `ptrace_wait` state machine; the request-then-wait wrappers over a `Tracee` object (pending `waitpid` deliveries, log of issued requests, refused requests) |
| `Addresses` | include/elf_utils.h | `PyABI`, `PyAddresses` and its relocation by a load base |
| `ElfHeader` | include/elf_utils.h | the `ELF` constructor and the header-table accessors `phdr`, `shdr`, `strtab`, `dynstr` |
| `Layout` | src/python_frame.cpp | CPython 2.7 x86-64 field offsets; `StringSize`, `ByteData` |
| `LineTable` | src/python_frame.cpp | `GetLine` and the `co_lnotab` decoder |
| `Frames` | include/python_frame.h | `pyframe`, `py_thread`, `pyframe::operator==`, `pyframe_hash` |
| `Walker` | src/python_frame.cpp | `trace_py_frames`, `trace_py_threads` |
| `Resolver` | src/python_frame.cpp | `locate_lib_python`, `Addrs`, `AddressesFromLibPython`, `set_addrs_`, `detect_python_abi` |
| `Dump` | src/python_frame.cpp | `dump_py_threads`: seize, interrupt, the 50-attempt detection loop, the walk |

Modelling choices:
- The target's memory is a partial map from 64-bit addresses to words. A
  missing key is an address the kernel refuses to read.
- Pointer arithmetic wraps modulo 2^64.
- The kernel's answers are inputs: the sequence of `waitpid` results and
  the set of requests it refuses.
- What the `ELF` reader makes of each file is an input, mapped from path to
  addresses, reported ABI and `DT_NEEDED` names. So is the word an injected
  call to `PyInterpreterState_Head` would return.
- Loops in the source that update state step by step are methods with loop
  invariants. Each is proved equal to a specification function, and the
  properties are lemmas about those functions.
- The source gives the frame walk, the thread walk and the string read no
  bound. Their specification functions take a step budget and return
  `Diverge` when it runs out. The methods carry that budget only as a ghost
  parameter and are asked only for walks that end within it.

In these places the model follows the code:
- `StringData` reads the string object's bytes up to the first NUL. It does
  not copy `ob_size` bytes.
- A failed peek during a walk aborts the whole dump. No partial snapshot is
  kept.
- `locate_lib_python` takes the first maps line that contains the hint as a
  substring and also contains ` r-xp `.
- Exhausting the detection retries raises `PtraceException`.

## Model

| member | source | states |
|---|---|---|
| Remote.Peek | src/ptrace_wrapper.cpp:116-128 | is the failure test with errno cleared first; fails, with PtraceException, exactly when the address is unreadable; otherwise returns the stored word, even when that word is all ones (-1) |
| Remote.PeekPtr | src/ptrace_wrapper.cpp:130-142 | the same request, with errno cleared first, read as a pointer: the stored word, or PtraceException for an unreadable address |
| Remote.PeekWithErrno | src/ptrace_wrapper.cpp:118-127 | the failure test run with errno already holding a value: an unreadable address always fails with PtraceException, and with errno cleared the outcome is the stored word or that failure |
| Remote.StaleErrnoWouldMisreport | src/ptrace_wrapper.cpp:118-127 | without the `errno = 0` before the request, a readable all-ones word is reported as PtraceException, where the peek with the reset returns it as data |
| Remote.RoundUp | src/ptrace_wrapper.cpp:165-168 | the length actually read is a multiple of 8, at least the requested length and less than 8 beyond it |
| Remote.ReadBytes | src/ptrace_wrapper.cpp:171-177 | reading whole words from `addr` succeeds exactly when every word `addr + 8j` is readable; it yields 8 bytes per word and fails only with PtraceException |
| Remote.ReadBytesMeaning | src/ptrace_wrapper.cpp:171-177 | byte k of a successful read is the target byte at `addr + k` |
| Remote.PeekBytes | src/ptrace_wrapper.cpp:163-178 | the in-place buffer fill returns exactly the read of `RoundUp(n)/8` words at `addr, addr+8, ...`, or fails if any of them is unreadable |
| Remote.FirstNul | src/ptrace_wrapper.cpp:154 | `find_first_of('\0')` lies within the chunk, with the chunk length standing for `npos` |
| Remote.FirstNulMeaning | src/ptrace_wrapper.cpp:152-156 | no byte before the index is NUL, the byte at it is, and it is `npos` exactly when the chunk has no NUL |
| Remote.CStringFrom | src/ptrace_wrapper.cpp:143-160 | the word-by-word string read fails only with PtraceException |
| Remote.CStringMeaning | src/ptrace_wrapper.cpp:143-160 | a finished read contains no NUL, spells the target bytes from `addr` on, and is followed in the target by a readable zero byte |
| Remote.CStringReadsOnlyThroughNul | src/ptrace_wrapper.cpp:147-158 | the read looks at no word after the one holding the terminator: memories that agree on the consumed words give the same string |
| Remote.CStringStep | src/ptrace_wrapper.cpp:147-158 | one pass of the loop either fails on an unreadable word, ends on a word holding a NUL with the bytes before it, or goes on to the next word |
| Remote.PeekString | src/ptrace_wrapper.cpp:143-160 | the `while(true)` loop returns exactly the word-by-word read up to the first NUL |
| Control.LeadingChld | src/ptrace_wrapper.cpp:64-67 | counts exactly the SIGCHLD stops at the head of the delivery queue |
| Control.Tracee.Ptrace | src/ptrace_wrapper.cpp:41 | `ptrace(req, pid, 0, 0)` appends `req` to the log and reports whether the kernel accepted it |
| Control.Tracee.WaitPid | src/ptrace_wrapper.cpp:53 | `waitpid` takes the next delivery; an exhausted queue stands for a `waitpid` that returns -1 |
| Control.PtraceCont | src/ptrace_wrapper.cpp:39-47 | `ptrace_condition` issues PTRACE_CONT and raises PtraceException on refusal |
| Control.PtraceWait | src/ptrace_wrapper.cpp:48-84 | the `for(;;)` loop: a SIGTRAP stop returns, a SIGCHLD stop is continued and waited for again, an exit is TerminateException, and any other stop or status or a failed `waitpid` is PtraceException |
| Control.WaitConsumes | src/ptrace_wrapper.cpp:52-83 | while continuing is allowed, the wait consumes the leading SIGCHLD stops, issues exactly one PTRACE_CONT for each, consumes one more delivery and gives its verdict on it: success exactly on a SIGTRAP stop, TerminateException exactly on an exit |
| Control.WaitIssuesOnlyCont | src/ptrace_wrapper.cpp:59-67 | the wait adds nothing but PTRACE_CONT requests to the log, even when continuing is refused |
| Control.PtraceInterrupt | src/ptrace_wrapper.cpp:85-91 | PTRACE_INTERRUPT, then the wait |
| Control.PtraceSingleStep | src/ptrace_wrapper.cpp:203-211 | PTRACE_SINGLESTEP, then the wait |
| Control.RefusedRequestSkipsWait | src/ptrace_wrapper.cpp:85-91 | a refused interrupt or single step raises PtraceException before anything is waited for |
| Control.PtraceAttach | src/ptrace_wrapper.cpp:92-105 | PTRACE_ATTACH, then a single `waitpid` |
| Control.AttachMeaning | src/ptrace_wrapper.cpp:92-105 | attaching succeeds exactly when the kernel accepts the request and the next delivery is a stop of the target, whatever its signal |
| Addresses.PyAddresses.Shift | include/elf_utils.h:72-81 | `operator+` adds `base` (modulo 2^64) to each non-zero address field, keeps the hint and the PIE flag, keeps zero address fields at zero, and keeps an empty record empty |
| Addresses.PyAddresses.Unshift | include/elf_utils.h:61-70 | `operator-` subtracts `base` (modulo 2^64) from each non-zero address field, keeps the hint and the PIE flag, keeps zero address fields at zero, and keeps an empty record empty |
| Addresses.PyAddresses.Empty | include/elf_utils.h:90-93 | `empty()`: a record is unfilled exactly when its thread-state address is 0 |
| Addresses.PyAddresses.IsSet | include/elf_utils.h:84-88 | `operator bool` is true exactly when the thread-state address is non-zero, the negation of `empty()` |
| Addresses.NoAddresses | include/elf_utils.h:52-59 | the default record has every field zero, is not PIE, is `empty()` and converts to `false` |
| Addresses.FieldRoundTrip | include/elf_utils.h:61-81 | for one field, adding then subtracting the base gives it back exactly when the field is zero or does not wrap to zero, and likewise the other way round |
| Addresses.ShiftRoundTrip | include/elf_utils.h:61-81 | `(a + b) - b == a` exactly when no non-zero address field wraps to 0 under `+ b` |
| Addresses.UnshiftRoundTrip | include/elf_utils.h:61-81 | `(a - b) + b == a` exactly when no non-zero address field wraps to 0 under `- b` |
| Addresses.ShiftEmptiness | include/elf_utils.h:72-93 | a relocated record is empty exactly when it was empty or its thread-state address wrapped to 0 |
| Addresses.WrapBreaksRoundTrip | include/elf_utils.h:72-93 | a thread-state address 16 below the top of the address space, moved by 16, turns a filled-in record into an empty one, and the round trip loses it |
| ElfHeader.NewElf | include/elf_utils.h:109-118 | the constructor maps nothing and sets every section index to -1 |
| ElfHeader.Phdr | include/elf_utils.h:153-162 | a negative index raises FatalException, and only a negative one does |
| ElfHeader.PhdrEntryAt | include/elf_utils.h:153-162 | program header `idx` is at `e_phoff + idx * e_phentsize`, the little-endian fields at their gABI offsets |
| ElfHeader.Shdr | include/elf_utils.h:164-173 | a negative index raises FatalException, and only a negative one does |
| ElfHeader.ShdrEntryAt | include/elf_utils.h:164-173 | section header `idx` is at `e_shoff + idx * e_shentsize` |
| ElfHeader.StrTab | include/elf_utils.h:180-190 | `strtab(off)` is what `dynstr(off)` gives when the `.dynstr` index is `e_shstrndx`: the two accessors differ only in the section they read |
| ElfHeader.StrTabMeaning | include/elf_utils.h:180-184 | `strtab(off)` is the `sh_offset` stored in section `e_shstrndx`'s header, plus `off` |
| ElfHeader.DynStr | include/elf_utils.h:186-190 | `dynstr` raises FatalException exactly when the `.dynstr` index is unknown |
| ElfHeader.DynStrBeforeParse | include/elf_utils.h:186-190 | on a freshly constructed reader, with or without an image, `dynstr` raises FatalException through `shdr(-1)` |
| Layout.Low31 | src/python_frame.cpp:72-87 | masking with `INT_MAX` gives at most `INT_MAX` and leaves a smaller word unchanged |
| Layout.StringSize | src/python_frame.cpp:47-50 | `StringSize` is the length field, `OB_SIZE` bytes into the object; the byte data at `OB_SVAL` lies `OB_SVAL - OB_SIZE` past it, modulo 2^64 |
| Layout.ByteData | src/python_frame.cpp:47-55 | the byte data of a string object starts 20 bytes past its length field |
| LineTable.DecodeFrom | src/python_frame.cpp:93-99 | decoding never goes below the line it starts from |
| LineTable.DecodeFromMeaning | src/python_frame.cpp:90-99 | from any pair on, the decoder adds exactly the line deltas of the pairs whose cumulative offset stays within `f_lasti` |
| LineTable.DecodeMeaning | src/python_frame.cpp:90-99 | the line is `co_firstlineno` plus the line deltas of the leading pairs whose cumulative offset stays within `f_lasti`; the pair that passes it contributes nothing |
| LineTable.DecodeFromReadsOnlyPairs | src/python_frame.cpp:88-99 | only the first `size/2` whole pairs are read |
| LineTable.DecodeReadsOnlyPairs | src/python_frame.cpp:88-99 | an odd trailing byte, and the padding of the word-rounded read, make no difference |
| LineTable.DecodeExample | src/python_frame.cpp:84-100 | pairs (2,0),(2,1),(4,2) with first line 10 and `f_lasti` 7 give line 11 |
| LineTable.LineSpec | src/python_frame.cpp:70-101 | `GetLine` fails only with PtraceException |
| LineTable.TracedFrameLine | src/python_frame.cpp:72-77 | with a trace function set, the line is `f_lineno` masked to 31 bits, and nothing besides `f_trace` and `f_lineno` is read |
| LineTable.UntracedLineAtLeastFirst | src/python_frame.cpp:79-100 | without a trace function, the line is never below `co_firstlineno` |
| LineTable.GetLine | src/python_frame.cpp:70-101 | the peeks in source order, then the table loop, give exactly the specified line |
| LineTable.DecodeTable | src/python_frame.cpp:90-99 | the `--size >= 0` loop with its byte cursor computes exactly the decoder over `size/2` pairs |
| Frames.SameFrame | include/python_frame.h:22-25 | `operator==` compares file and line only; its properties are stated by the two lemmas below |
| Frames.SameFrameIgnoresAddrAndName | include/python_frame.h:22-25 | frames differing only in address and function name are equal |
| Frames.SameFrameIsEquivalence | include/python_frame.h:22-25 | `==` is reflexive, symmetric and transitive |
| Frames.FramesHash | include/python_frame.h:37-46 | the XOR loop computes the fold of position hashes and file hashes |
| Frames.HashOf | include/python_frame.h:37-46 | the XOR of `hash(i) ^ hash(file_i)` over positions; `FramesHash` computes it and the lemmas below state what it depends on |
| Frames.HashOfPrefix | include/python_frame.h:40-44 | each iteration folds one position and its file into the hash of the shorter prefix |
| Frames.EmptyHashIsZero | include/python_frame.h:39-45 | the hash of no frames is 0 |
| Frames.HashDependsOnFilesOnly | include/python_frame.h:37-46 | vectors of equal length with the same file at each position hash alike |
| Frames.HashRespectsSameFrame | include/python_frame.h:22-46 | vectors equal position by position under `==` hash alike |
| Walker.StringData | src/python_frame.cpp:57-60 | the string's bytes are the C string read at its byte data |
| Walker.FrameAt | src/python_frame.cpp:109-115 | a frame entry carries the frame's own address and its readable `f_back` word, and fails only with PtraceException |
| Walker.FrameEntry | src/python_frame.cpp:109-115 | the peeks of one loop pass, in source order, give exactly the specified entry |
| Walker.FramesStep | src/python_frame.cpp:107-117 | the walk lists this frame, then stops at a null `f_back` or goes on from it |
| Walker.FramesChain | src/python_frame.cpp:103-119 | a finished walk is non-empty, starts at the given frame, and each entry's `f_back` is the next entry's address; only the last one's is null |
| Walker.FramesFailOnlyOnPeek | src/python_frame.cpp:103-119 | a walk fails only with PtraceException, and then no list is returned |
| Walker.FramesWalkStep | src/python_frame.cpp:107-117 | one loop pass keeps the account of the whole walk: it fails with this frame, ends with it, or goes on from its `f_back` with one step less of budget |
| Walker.NextFrame | src/python_frame.cpp:107-117 | one loop pass, with what it means for the whole walk |
| Walker.TracePyFrames | src/python_frame.cpp:103-119 | the `do ... while (frame_addr)` loop returns exactly the specified walk |
| Walker.StartSpec | src/python_frame.cpp:126-163 | choosing where the thread walk starts fails only with PtraceException |
| Walker.StartCurrent | src/python_frame.cpp:131-134 | the current thread state is the word at `tstate_addr`; with threads disabled the walk also starts there |
| Walker.StartChoice | src/python_frame.cpp:134-163 | the interpreter state comes from the current thread state's `interp` when that state is non-null, else through `interp_head_addr` when set, else from the hint as is; a non-null interpreter state moves the start to its `tstate_head`, a null one keeps the current thread state |
| Walker.FindStart | src/python_frame.cpp:126-163 | the branches and peeks give exactly the specified start |
| Walker.ThreadAt | src/python_frame.cpp:171-183 | a node yields an entry exactly when its frame pointer is non-null; the entry has the node's thread id, is current exactly when the node is the current thread state, and holds the frame walk from that pointer |
| Walker.VisitAt | src/python_frame.cpp:171-191 | one pass succeeds exactly when the node's entry does and, with threads enabled, `next` is readable; it moves to `next`, or to null when threads are disabled |
| Walker.VisitThread | src/python_frame.cpp:171-191 | the peeks of one loop pass give exactly the specified visit |
| Walker.WalkStep | src/python_frame.cpp:169-192 | one loop pass keeps the account of the whole list walk |
| Walker.WalkNeedsBudget | src/python_frame.cpp:169-192 | a walk that ends within its budget still has budget at every non-null node |
| Walker.WalkThreads | src/python_frame.cpp:166-194 | the `while (tstate != nullptr)` loop returns exactly the specified list walk |
| Walker.SingleThreadMode | src/python_frame.cpp:186-191 | with threads disabled, at most one thread is reported, and it is the current one |
| Walker.ThreadsFollowNext | src/python_frame.cpp:169-192 | with threads enabled, the walk visits the `next` chain in order, one entry per node whose frame pointer is non-null |
| Walker.TracePyThreads | src/python_frame.cpp:121-195 | finding the start, then walking the list, gives exactly the specified thread list |
| Resolver.FindFrom | src/python_frame.cpp:31-41 | `find` returns the first position where the pattern occurs, or `npos` when it occurs nowhere |
| Resolver.FindCharAt | src/python_frame.cpp:33-41 | finding a character gives its first occurrence |
| Resolver.StrToUL16 | src/python_frame.cpp:42 | `strtoul(_, _, 16)`, saturating at `ULONG_MAX`; its properties are stated by the three lemmas below |
| Resolver.StrToUL16OfHex | src/python_frame.cpp:42 | `strtoul(_, _, 16)` reads back an address printed in lower-case hex, whatever non-digit follows it |
| Resolver.StrToUL16OfHexAlone | src/python_frame.cpp:42 | `strtoul(_, _, 16)` reads back the printed address on its own |
| Resolver.StrToUL16OfDigits | src/python_frame.cpp:42 | a run of hex digits that fits in 64 bits reads as its value |
| Resolver.ParseLine | src/python_frame.cpp:33-42 | a matched line raises FatalException exactly when it lacks a `/` or a `-`; otherwise the path is the line's suffix from its first `/` |
| Resolver.ParseLineAt | src/python_frame.cpp:33-42 | once both searches have landed, the load address is `strtoul` of the text before the first `-`, and the path starts at the first `/` |
| Resolver.DashField | src/python_frame.cpp:38-42 | in a line made of hex digits, a `-` and the rest, the first `-` ends the start address |
| Resolver.SlashField | src/python_frame.cpp:33-37 | in such a line, the first `/` of the rest begins the path |
| Resolver.FieldsOfLine | src/python_frame.cpp:33-42 | such a line parses to the digits' value and the path |
| Resolver.ParseMapsLine | src/python_frame.cpp:33-42 | a line in the kernel's `start-end perms ... /path` format yields exactly its start address and its path |
| Resolver.LocateSpec | src/python_frame.cpp:23-46 | locating fails only with FatalException |
| Resolver.LocateLibPython | src/python_frame.cpp:23-46 | the `getline` loop gives exactly the specified outcome |
| Resolver.LocateFirstMatch | src/python_frame.cpp:30-44 | the first line containing both the hint and ` r-xp ` decides, and only it |
| Resolver.LocateNoMatch | src/python_frame.cpp:30-45 | with no such line, the load address is 0 and the path is left as it was |
| Resolver.FirstLibPython | src/python_frame.cpp:259-265 | the chosen `DT_NEEDED` entry contains "libpython" and no earlier entry does; none is chosen only when no entry does |
| Resolver.FindLibPython | src/python_frame.cpp:259-265 | the loop picks the first needed library whose name contains "libpython", or leaves the name empty |
| Resolver.FromLibPython | src/python_frame.cpp:198-217 | `AddressesFromLibPython` raises only kinds of FatalException |
| Resolver.FromLibPythonMeaning | src/python_frame.cpp:198-217 | it raises SymbolException exactly when the load address is 0 or the library's addresses are empty, and otherwise returns those addresses moved by the load address |
| Resolver.AddrsSpec | src/python_frame.cpp:219-274 | `Addrs` raises only kinds of FatalException |
| Resolver.AddrsOrder | src/python_frame.cpp:246-273 | the executable's own addresses come first (as found when not PIE, moved by the executable's own load address when PIE); otherwise the first needed libpython; otherwise `libpython2.7.so` |
| Resolver.AddrsEmptyOnlyByWrap | src/python_frame.cpp:246-273 | `Addrs` returns an empty record only when relocation wrapped a filled-in thread-state address to 0 |
| Resolver.SetAddrs | src/python_frame.cpp:276-296 | apart from the injected call, the return code is 0 or 1 and `set_addrs_` lets only FatalException through |
| Resolver.SetAddrsMeaning | src/python_frame.cpp:276-296 | return code 1 exactly on SymbolException, with the caller's record untouched; otherwise the record is what `Addrs` found, with the hint replaced by the injected call's word exactly when `interp_head_addr` and the hint are 0 and the function address is not |
| Resolver.DetectAbi | src/python_frame.cpp:298-314 | apart from the injected call, `detect_python_abi` raises only FatalException; it returns 0 with a filled-in record, or 1 with the record untouched |
| Resolver.DetectAbiMeaning | src/python_frame.cpp:298-314 | success means the 2.6/2.7 ABI, either given or detected from an unknown ABI; an explicitly given 3.x ABI never succeeds; return code 1 comes exactly from SymbolException in `Addrs`, with the record untouched |
| Dump.RetryFrom | src/python_frame.cpp:332-353 | a successful retry loop reports an attempt at or after the one it started from |
| Dump.RetryStep | src/python_frame.cpp:334-346 | an attempt that returns 1, when the loop still succeeds, is not the last; the target is continued and interrupted, adding one PTRACE_INTERRUPT, and the next attempt follows |
| Dump.RetrySucceeds | src/python_frame.cpp:332-353 | a successful loop had every earlier attempt return 1, takes the addresses of the attempt that returned 0, and issued one PTRACE_INTERRUPT per failed attempt |
| Dump.RetryExhausts | src/python_frame.cpp:332-353 | when every attempt returns 1 and each interrupt is answered by a SIGTRAP stop, the loop raises PtraceException after continuing and interrupting between each two attempts |
| Dump.PhaseStart | src/python_frame.cpp:319-328 | a target that accepts PTRACE_SEIZE and PTRACE_INTERRUPT reaches the retry loop with both logged |
| Dump.PhaseExhausts | src/python_frame.cpp:319-353 | seizing, interrupting and fifty refused attempts raise PtraceException with 49 continue/interrupt rounds logged |
| Dump.DumpSucceeds | src/python_frame.cpp:316-357 | a dump that yields threads seized and interrupted the target, found a filled-in record after every earlier attempt returned 1, and walked the threads with it |
| Dump.DumpExhausts | src/python_frame.cpp:316-357 | fifty attempts that all return 1, with each interrupt answered by a SIGTRAP stop, make the dump raise PtraceException |
| Dump.AddrsIgnoresSlot | src/python_frame.cpp:219-274 | the addresses found do not depend on the ABI out-slot; this holds by construction, since `GetAddresses` is an input that never reads the slot |
| Dump.UninitialisedAbi | src/python_frame.cpp:330-336 | as written: with `abi` holding a 3.x value, a target whose first detection succeeds makes the dump raise FatalException, while starting from `Unknown` walks its threads |
| Dump.UninitialisedAbiNeverDumps | src/python_frame.cpp:330-353 | as written: with a 3.x value in `abi`, no dump ever succeeds |
| Dump.RetryDetect | src/python_frame.cpp:332-353 | the `for` loop gives exactly the specified retry outcome and kernel log, apart from the injected call; every attempt starts from the empty record (the loop invariant `addrs == NoAddresses()`) with the same ABI value |
| Dump.DumpPyThreads | src/python_frame.cpp:316-357 | the dump, with `abi` starting as `Unknown`, gives exactly the specified outcome and kernel log, apart from the injected call |

## Left out

- `ptrace_call_function`, `AllocPage`, `ListThreads`, `PauseChildThreads`, `ResumeChildThreads` and the `probe_` cache (src/ptrace_wrapper.cpp:212-317) run injected machine code inside the target. The model keeps only the word the injected call returns, as an input.
- `ptrace_get_regs`, `ptrace_set_regs`, `ptrace_poke`, `ptrace_detach` and `ptrace_cleanup` are one-request wrappers that no modelled operation uses.
- The bodies of `ELF::Open`, `Parse`, `NeededLibs`, `GetAddresses`, `GetBaseAddress` and `WalkTable` are not in the headers. What they yield for each path is an input. A path the reader cannot open raises FatalException.
- src/posix_file_util.cpp is not part of this model. This covers `Namespace` and `ReadLink`; an unreadable `exe` link raises FatalException.
- Console logging, `operator<<` printers and the 100 ms sleep between attempts have no logical content.
- The declarations in include/ptrace_wrapper.h that disagree with the implementation are not modelled; the implementation is.
- `locate_lib_python` assigns `path` before it checks for `-`. When it then raises, the caller's string is already changed. Every caller passes a local string, so the model drops it with the exception.
- `set_addrs_` writes through a reference. The model returns the new record instead of updating the caller's.
- The kernel is a fixed queue of `waitpid` results and a fixed set of refused requests. It does not model signals arriving in response to the requests.
- `dump_py_threads` does not wait after its PTRACE_INTERRUPT. The model likewise consumes no delivery there.
- Target memory is one map of 8-byte words, so two overlapping unaligned reads are not tied to each other.
- The interpreter structures are read at the fixed CPython 2.7 x86-64 offsets. No other ABI is modelled.
- Resolver.SetAddrs, Resolver.DetectAbi, Dump.RetryDetect, Dump.DumpPyThreads: the injected `ptrace_call_function` (src/python_frame.cpp:289-293) is reduced to the word it returns. Its GETREGS/SETREGS/CONT requests, the `waitpid` deliveries it consumes, the `AllocPage` attach, single step and detach on first use, and the PtraceException or TerminateException it can raise are not modelled.
- Control.Tracee.WaitPid: an exhausted delivery queue stands for a `waitpid` that returns -1, so Control.WaitSpec, Control.Verdict, Control.WaitConsumes and Control.AttachMeaning report PtraceException there. A `waitpid` that blocks until a signal arrives is not modelled.
- Remote.PeekString: requires a ghost word budget within which the read ends. The source reads with no bound and may run forever on memory with no NUL byte.
- Walker.StringData: same budget requirement as PeekString.
- Walker.FrameEntry: requires that the two string reads end within the budget.
- Walker.TracePyFrames: requires a ghost step budget within which the `f_back` chain ends. The source has no cycle guard, so no claim is made about cyclic chains.
- Walker.VisitThread: requires that the node's frame walk ends within the budget.
- Walker.WalkThreads: requires a ghost node budget within which the `next` chain ends. The source has no cycle guard.
- Walker.TracePyThreads: same budget requirements as WalkThreads.
- Dump.DumpPyThreads: same budget requirements as TracePyThreads.
- LineTable.GetLine: `line` and `addr` are unbounded integers. The source's `int` could overflow on a table whose deltas sum past 2^31; that is undefined behaviour, and the model does not capture it.
- ElfHeader.Phdr: offsets are relative to the mapped image and `idx * e_phentsize` is unbounded. The source computes that product in `int`, and it reads the header without a bounds check, so the model requires a whole ELF header for a non-negative index.
- ElfHeader.Shdr: the same as Phdr, for the section-header table.
- ElfHeader.StrTab: requires that section `e_shstrndx`'s header lies inside the image. The source reads it unchecked.

## Findings

| source | as written | input that shows it | evidently intended | confidence | as-written member | corrected member |
|---|---|---|---|---|---|---|
| src/python_frame.cpp:330 | `PyABI abi;` has no initialiser. Its indeterminate value is passed by value to `detect_python_abi` on every attempt. | The stack slot holds 34 (`Py34`) or 36 (`Py36`), and the target's first detection would find a 2.6/2.7 interpreter. `set_addrs_` then gets a null out-pointer, and `detect_python_abi` raises FatalException ("only py2.7 is allowed") instead of the threads being dumped. With a 3.x value no dump ever succeeds. | `PyABI abi = PyABI::Unknown;`, so the ABI is auto-detected | high, from the code; not executed | Dump.UninitialisedAbi | Dump.DumpPyThreads |

`Dump.DumpPyThreads` starts from `PyABI::Unknown`. Its contract ties it to
the dump specification. `Dump.UninitialisedAbi` proves that, from
`Unknown`, the same target's threads are walked. `Resolver.DetectAbiMeaning`
proves that detection from `Unknown` succeeds only when `GetAddresses`
reports the 2.6/2.7 ABI.
