# Systems-programming exercises in Dafny

This project models the core logic of a set of small Linux C programs.

- **Shared-memory producer/consumer (day4).** A counting semaphore is built on one atomic counter word. `sem_incr` and `sem_decr` are compare-and-swap retry loops. A ring buffer of three slots is guarded by three of these semaphores: `slots`, `elements` and `lock`.
- **Line sorter (day8).** A growable array of `struct iovec` collects the input lines. The comparator `iov_compare` orders them for `qsort`.
- **File checksum (day9).** `calc_checksum` adds up a mapped file as 64-bit words, modulo 2^64.
- **Filter multiplexer (day7).** `drain_proc` copies a child process's output and puts `[cmd] ` at the start of every line. `main` computes the `select` bound over the live processes, and the stdin thread forwards input to them.
- **inotify printer (day5).** A constant table maps event masks to names, with an exact-match lookup. A walk steps over the variable-length event records of one `read`.
- **Postbox server (day12).** Handlers strip trailing newlines before printing. Each epoll event is dispatched to the first postbox that owns its descriptor.

The programs are modelled sequentially.

- A semaphore is a class with an integer `count`. "Would block in `futex_wait`" becomes the precondition `count > 0`.
- The bounded buffer is a class over a 3-element array, its two cursors and its three semaphores. A ghost `Contents` holds the logical queue.
- Results of system calls (`read`, `recv`, `prepare`) are parameters.
- Output is returned as a value rather than printed.

Modules, one per program: `Semaphores`, `BoundedBuffers` (day4), `IoData` (day8), `Checksums` (day9), `Multiplexer` (day7), `InotifyEvents` (day5), `Postbox` (day12), plus `Wrappers` (an `Option` type).

Two points about the producer/consumer code:

- The buffer's capacity is the compile-time constant `BOUNDED_BUFFER_LEN = 3`. The code has no capacity argument and no zero-capacity check.
- Both processes call `sem_init` on the ready flag after `fork` (day4/src/main.c:117), so the child's re-initialisation can race with the parent's wait; the sequential model does not capture this race.

## Model

| member | source | states |
|---|---|---|
| Semaphores.Semaphore.constructor | day4/src/main.c:35-37 | `sem_init`: the counter starts at the given non-negative value |
| Semaphores.Semaphore.CompareExchange | day4/src/main.c:43 | the counter is replaced by the desired value exactly when it equals the expected value, and success is reported exactly then |
| Semaphores.Semaphore.Incr | day4/src/main.c:39-49 | `sem_incr` raises the counter by exactly one through the CAS retry loop; the wake changes no state; the counter stays non-negative |
| Semaphores.Semaphore.Decr | day4/src/main.c:51-61 | `sem_decr` may only complete when the counter is positive (otherwise it blocks), and then lowers it by exactly one, so it never goes negative |
| BoundedBuffers.BoundedBuffer.constructor | day4/src/main.c:74-80 | `bbuf_init`: `slots = 3`, `elements = 0`, `lock = 1`, both cursors 0, empty queue, invariant established |
| BoundedBuffers.BoundedBuffer.Put | day4/src/main.c:82-89 | needs a free slot. Appends the item to the queue and writes only `data[write_idx]`. `read_idx` is unchanged and `write_idx` advances mod 3. `slots` drops by one and `elements` rises by one. Keeps the invariant: cursors in [0,3), `slots + elements == 3`, `lock == 1`, `write_idx == (read_idx + elements) % 3` |
| BoundedBuffers.BoundedBuffer.Get | day4/src/main.c:91-100 | needs an element. Returns and removes the oldest item (FIFO) and writes no slot of `data`. `write_idx` is unchanged and `read_idx` advances mod 3. `elements` drops by one and `slots` rises by one. Keeps the same invariant |
| BoundedBuffers.ProducerConsumer | day4/src/main.c:120-139 | a producer and a consumer alternating on a fresh buffer: every message is received in the order it was put, wrapping the cursors as often as needed; with more messages than slots the producer blocks |
| BoundedBuffers.Demo | day4/src/main.c:128-138 | the six-string demonstration: "hello" … "process" are received in order, and the producer blocks on the full buffer |
| IoData.IoVecArray.constructor | day8/src/main.c:21-29 | `init_iodata`: no entries, room for 32 |
| IoData.IoVecArray.Enter | day8/src/main.c:31-42 | `enter_iodata` appends `(line, len)` and keeps all earlier entries. `entries` grows by one. Capacity stays unless the array was full, and then grows by exactly 32. `entries <= allocated`, and capacity stays a positive multiple of 32 |
| IoData.IoVecArray.Realloc | day8/src/main.c:34 | the grown allocation has the requested size in entries and keeps the old entries |
| IoData.Compare | day8/src/main.c:52-73 | `iov_compare` on byte strings returns -1, 0 or 1 |
| IoData.IovCompare | day8/src/main.c:52-57 | on two I/O vectors the comparator returns -1, 0 or 1, and 0 exactly when they describe the same bytes |
| IoData.CompareZeroIff | day8/src/main.c:58-72 | the result is 0 exactly when both strings have the same length and the same bytes |
| IoData.CompareAntisymmetric | day8/src/main.c:58-72 | swapping the operands negates the result |
| IoData.CompareFirstDifference | day8/src/main.c:59-65 | the first differing byte within the common prefix decides, as a signed `char` |
| IoData.ComparePrefix | day8/src/main.c:66-71 | a proper prefix compares less than every longer string it begins |
| IoData.CompareTransitive | day8/src/main.c:52-73 | the order is transitive, including strictly, as `qsort` requires |
| IoData.CompareTotal | day8/src/main.c:52-73 | any two strings are ordered one way or the other |
| IoData.AsWrittenReallocTooSmall | day8/src/main.c:32-34 | as written, after a growth to `allocated` entries, realloc gives only `allocated` bytes. That is `allocated / 16` entries, which is at most `allocated - 32`: the index written next |
| Checksums.WordCount | day9/src/main.c:43-45 | the word loop loads ceil(len / 8) words: 8·n ≥ len and 8·n < len + 8 |
| Checksums.LoadWord | day9/src/main.c:44 | a loaded 64-bit word is below 2^64 |
| Checksums.CalcChecksum | day9/src/main.c:40-51 | `calc_checksum` returns the sum modulo 2^64 of the ceil(len / 8) little-endian words it loads. It loads exactly that many words, and the trailing-byte loop adds nothing |
| Checksums.AddBytes | day9/src/main.c:46-49 | the byte loop adds each byte from its start up to `len` modulo 2^64. It runs `len - start` times, and zero times when it starts at or past `len` |
| Checksums.AddWrapped | day9/src/main.c:44 | accumulating with wrap-around after every word equals wrapping the exact sum once |
| Checksums.EmptyChecksum | day9/src/main.c:41-50 | a zero-length file has checksum 0 |
| Checksums.WordsSumConcat | day9/src/main.c:43-45 | the exact word sum over a concatenation split at a multiple of 8 is the sum of the parts' word sums |
| Checksums.ChecksumConcat | day9/src/main.c:43-45 | for a split at a multiple of 8 bytes, the checksum of the whole is the sum of the parts' checksums modulo 2^64 |
| Multiplexer.Proc.constructor | day7/src/main.c:129-131 | a process starts with its command, pid and pipe ends, and `last == '\n'` |
| Multiplexer.Prefixed | day7/src/main.c:107-113 | the output for n bytes holds at least n elements |
| Multiplexer.PrefixedAt | day7/src/main.c:107-111 | the tag `[cmd] ` stands immediately before byte i exactly when the byte preceding it (`last` for the first) is `'\n'` |
| Multiplexer.PrefixedUntagged | day7/src/main.c:107-113 | deleting the tags from the output yields exactly the bytes read, in order |
| Multiplexer.PrefixedAppend | day7/src/main.c:107-113 | two calls in a row print what one call over both chunks would: `last` carries the line state across calls |
| Multiplexer.RenderAppend | day7/src/main.c:108-111 | the printed text of consecutive outputs is the concatenation of their texts |
| Multiplexer.FirstByteTagged | day7/src/main.c:131 | since processes start with `last == '\n'`, their very first output byte is tagged |
| Multiplexer.DrainProc | day7/src/main.c:95-115 | `drain_proc`: a failed read is reported and changes nothing. A zero-length read sets `pid` to 0 and leaves `last`. Otherwise the output is the prefixed bytes, `last` becomes the last byte read, and `pid` is unchanged |
| Multiplexer.ComputeNfds | day7/src/main.c:153-168 | `nfds` is the largest stdout fd of a process with `pid != 0`, or 0 if there is none. When all stdout fds are positive, the loop exits (`nfds == 0`) exactly when no process is live |
| Multiplexer.LiveStdinsMembership | day7/src/main.c:65-71 | a descriptor is among the filtered stdins exactly when some live process owns it |
| Multiplexer.LiveStdins | day7/src/main.c:65-71 | `close_procs` closes exactly the stdin of every process whose pid is not 0, in order |
| Multiplexer.StdinStep | day7/src/main.c:80-92 | `stdin_thread` closes the live processes' stdins exactly when the read returns ≤ 0, and otherwise forwards the bytes to exactly those |
| InotifyEvents.NameFromSpec | day5/src/main.c:39-44 | the table search finds a name exactly when some entry has the mask, and then it is the name of the first such entry |
| InotifyEvents.ValidIffNamed | day5/src/main.c:37-55 | `is_valid_event(m)` holds exactly when `get_event_str(m)` is not NULL |
| InotifyEvents.GetEventStr | day5/src/main.c:37-45 | `get_event_str` returns the name of the first entry whose mask equals `m`, and NULL exactly when no entry does |
| InotifyEvents.IsValidEvent | day5/src/main.c:47-55 | `is_valid_event` is true exactly when some table entry's mask equals `m` |
| InotifyEvents.ExactMatchExamples | day5/src/main.c:16-35 | matching is equality, not a bit test. `IN_OPEN \| IN_ISDIR` has no name and is invalid. The composite masks `IN_MOVE` and `IN_CLOSE` are entries named "move" and "close" |
| InotifyEvents.NextRecord | day5/src/main.c:102 | the walk advances by at least the 16-byte header, plus `ev->len` |
| InotifyEvents.PrintedFromSpec | day5/src/main.c:96-103 | the printed records lie at strictly increasing offsets below `len`, and each has a valid mask |
| InotifyEvents.WalkEvents | day5/src/main.c:96-103 | the walk ends and prints exactly the records with a valid mask, in buffer order |
| Postbox.TrimmedLen | day12/src/main.c:81-83 | trimming keeps a prefix and removes only trailing `'\n'`. It keeps at least one byte of a non-empty read, and a kept byte after the first is never `'\n'` at the end |
| Postbox.TrimIdempotent | day12/src/main.c:81-83 | trimming is idempotent |
| Postbox.TrimTerminate | day12/src/main.c:81-84 | the loop stops at the trimmed length. `buf[n] = 0` writes the terminator there and nothing else, and needs that index to lie inside the buffer |
| Postbox.AsWrittenTerminatorOutOfBounds | day12/src/main.c:76-84 | as written, a full 128-byte read whose last byte is not `'\n'` leaves `n == 128`, so `buf[n] = 0` is out of bounds |
| Postbox.LimitedReadTerminatorInBounds | day12/src/main.c:74-84 | with reads limited to `sizeof(buf) - 1` bytes the terminator always fits |
| Postbox.ReceiveInto | day12/src/main.c:74-84 | the printed string is the received bytes without their trailing newlines |
| Postbox.DomainRecv | day12/src/main.c:73-100 | a failed recv exits. Otherwise EPOLLIN prints the trimmed message and closes the client. EPOLLHUP alone closes it; other events do nothing |
| Postbox.FifoHandle | day12/src/main.c:120-147 | a failed read exits. An empty read reopens the fifo; otherwise EPOLLIN prints the trimmed message. EPOLLHUP alone reopens; other events do nothing |
| Postbox.FirstTaker | day12/src/main.c:184-189 | the first box whose fd equals the event's or is -1, and no earlier box matches |
| Postbox.PrepareBoxes | day12/src/main.c:169-174 | boxes with a prepare function get the fd it returned; the others keep theirs |
| Postbox.Dispatch | day12/src/main.c:182-190 | each event calls the handler of the first matching box, and no other |
| Postbox.PreparedRouting | day12/src/main.c:155-159 | after preparation the fifo fd goes to box 0 and the socket to box 1. Box 2 keeps fd -1 and takes every other descriptor, such as accepted clients. Every event has exactly one handler |

## Left out

- The futex system calls, memory ordering of the atomics, `mmap`, `fork` and the ready-flag handshake: the model is sequential. Blocking is a precondition, and the concurrent interleavings are not modelled.
- Semaphores.Semaphore.Incr: the counter is an unbounded integer. The 32-bit `atomic_int` would wrap only past 2^31 - 1, which the buffer's counters (at most 3) never reach.
- Semaphores.Semaphore.Incr: the wake check re-reads the counter and may call `futex_wake`. This changes no state and is not modelled.
- Semaphores.Semaphore.CompareExchange: in the sequential model no other party changes the counter between the load and the exchange, so each retry loop succeeds on its first pass. Lost races are not modelled.
- BoundedBuffers.ProducerConsumer: covers one turn-taking schedule (put while a slot is free, otherwise get), not every interleaving. The one-second `sleep` and the parent's endless get loop are not modelled.
- `getline`, `qsort`, `writev` and `free` in day8 are library calls and are not modelled. The comparator is proved to be a total order, which is what `qsort` needs.
- IoData.Compare: plain `char` is taken as signed (x86-64); where it is unsigned, bytes ≥ 0x80 order after the ASCII bytes.
- IoData.IoVecArray.Realloc: counts the new size in entries, not in bytes as the code does. The byte-count defect is recorded under Findings.
- IoData.IoVecArray.Enter: allocation failure (`exit(1)`) is not modelled.
- `map_file`, `setxattr` and `getxattr` in day9 are I/O. The mapped file is the parameter `mem`, readable up to the next multiple of 8 bytes.
- Checksums.CalcChecksum: the value of the last word depends on the bytes past `len` in `mem`, which the kernel fills with zeros. The model reads whatever `mem` holds there.
- In day7, pipes, `posix_spawn`, `select`, the thread, `waitpid` and the exit report are not modelled. `drain_proc`'s output is returned instead of printed.
- Multiplexer.DrainProc: a failed read (the program exits) is returned as `ReadFailed`.
- In day5, `inotify_init`, `inotify_add_watch`, `read` and `getcwd` are the kernel interface. Mask values and the 16-byte header size are taken from the Linux inotify interface. The buffer from one read is the parameter `buf`, and the walk's result is the list of printed record offsets.
- InotifyEvents.WalkEvents: requires that every record header the walk reaches lies inside `buf`. The kernel guarantees this by returning whole records.
- `print_event` formatting is not modelled. Only events that pass `is_valid_event` reach it.
- In day12, sockets, the fifo, `mknod`, `getsockopt` (the peer's pid/uid/gid in the message), epoll registration and the fifo reopen are not modelled. They appear only as the actions `Close`, `Reopen` and `PrintAndClose`.
- Postbox.DomainRecv, Postbox.FifoHandle: the message is the bytes up to the terminator. A zero byte inside the received data would end the printed C string earlier, which is not modelled.
- The epoll batch loop over up to 10 events is modelled one event at a time (Postbox.Dispatch).
- day1, day2, day3, day6, day10 and day11 are not part of this model. They are I/O, namespace, persistence, signal and throughput demonstrations without logic of their own.

## Findings

| source | as written | input that shows it | evidently intended | confidence | as-written member | corrected member |
|---|---|---|---|---|---|---|
| day12/src/main.c:76 | `recv(sockfd, buf, sizeof(buf), 0)` into `char buf[128]`, then `buf[n] = 0` after trimming | a 128-byte message whose last byte is not `'\n'`: `n` stays 128 and `buf[128]` is written | receive at most `sizeof(buf) - 1` bytes | not executed; high | Postbox.AsWrittenTerminatorOutOfBounds | Postbox.DomainRecv |
| day12/src/main.c:123 | `read(fifofd, buf, sizeof(buf))` into `char buf[128]`, then `buf[n] = 0` after trimming | 128 bytes written to the fifo, the last not `'\n'`: `buf[128]` is written | read at most `sizeof(buf) - 1` bytes | not executed; high | Postbox.AsWrittenTerminatorOutOfBounds | Postbox.FifoHandle |
| day8/src/main.c:34 | `realloc(dat->iov, dat->allocated)` sizes the array in bytes | a 32nd input line (the 33rd entry, after the header): `allocated` becomes 64 and realloc keeps 64 bytes (4 entries), then entry 32 is written | `realloc(dat->iov, dat->allocated * sizeof(struct iovec))` | not executed; high | IoData.AsWrittenReallocTooSmall | IoData.IoVecArray.Realloc |
