# subproclines in Dafny

A model of the engine of `subproclines.py`. The engine has two stages.

- **The line reassembler** (`parallel_lines`). It turns a sequence of
  `(index, chunk)` byte events into `(index, line)` events. It keeps one
  buffer of fragments per index and emits complete lines as soon as their
  separator `b'\n'` arrives. An empty chunk flushes the pending partial line
  of its index. At the end of the input, every non-empty buffer is flushed
  in the order in which its index was first seen.
- **The readiness multiplexer** (`parallel_reader_xpoll`, which backs the
  poll and epoll readers, and `parallel_read_select`). It registers the
  streams, then polls in cycles. Each non-empty read is yielded tagged with
  the stream's position. The loop stops after the first cycle in which no
  read returned data.

Modules:

- `Chunks` (`chunks.dfy`): bytes, `Event`, newline search (`Find`, which is
  `bytes.find`), `b''.join` (`Join`), and `DataFor`. `DataFor` is the bytes
  carried for one index, concatenated in order.
- `LineSpec` (`line_spec.dfy`): the reference definition of `parallel_lines`
  as pure functions over values, with the properties proved about it.
  - `Feed` handles one event and `Run` handles a sequence of events.
  - `Flush` is the final flush and `Lines` is everything that is yielded.
  - The buffers are abstracted to their joined bytes (`Pending`), together
    with the first-seen order of the indices.
- `LineReassembler` (`line_reassembler.dfy`): `parallel_lines` as the
  source writes it. It keeps a map of fragment lists that is updated chunk
  by chunk, with the rescan of lines 111-125 as a `while` loop. Each method
  is proved equal to the `LineSpec` function it implements.
- `Multiplexer` (`multiplexer.dfy`): the two reader loops. The system calls
  are inputs.
  - A run is observed over a finite sequence of cycles. Each cycle is the
    list `poll.poll()` returned (descriptor, events, and the bytes waiting
    in it), or the descriptors `select.select()` reported readable.
  - `os.read(fd, n)` is `Read`. A negative `n` raises `OSError(EINVAL)`.
    Otherwise it returns the first `min(n, available)` waiting bytes, so it
    returns `b''` at end of file or when `n == 0`.
  - A run ends in one of three ways: `Dry` (a cycle without data ended the
    loop), `Raised` (an exception), or `Running` (the observed cycles ran
    out while the generator would go on polling).

Three behaviours of the code worth stating:

- **Final flush order.** The final flush uses the insertion order of the
  `defaultdict`, not ascending index. This is the order in which each index
  was first seen at line 88, including indices whose only chunks were empty
  (`LineSpec.RunOrder`, `LineSpec.FinalFlush`).
- **Registration.** `parallel_reader_xpoll` registers only `POLLIN`
  (line 24), not hang-up as well. Its `POLLHUP` parameter is never read.
- **Argument check.** The `buffer_size` check at lines 13-14 sits inside a
  generator, so it raises on the first pull, not at call time. It still
  comes before any stream is registered (`Multiplexer.ParallelReaderXpoll`
  returns an empty registration then). `parallel_read_select` has no such
  check at all (see Findings).

## Model

| member | source | states |
|---|---|---|
| LineReassembler.ParallelLines | subproclines.py:84-131 | `parallel_lines` yields exactly `LineSpec.Lines(input)`. For every index, its lines concatenate to its input chunks. Every line is non-empty and is either a complete line or a fragment without separator. |
| LineReassembler.FeedChunk | subproclines.py:88-125 | Handling one chunk keeps every buffer made of non-empty fragments without separator. The new buffers and the lines emitted are those of `LineSpec.Feed`. |
| LineReassembler.ChunkIntoLines | subproclines.py:89-125 | Cutting a chunk against an index's buffer keeps the buffer clean. It leaves pending, and emits, exactly what `LineSpec.ChunkLines` prescribes for the buffer's joined bytes. |
| LineReassembler.ScanLines | subproclines.py:110-125 | The rescan from position `j` emits the complete lines of `chunk[j..]` left to right, tagged with `i`. The buffer it leaves joins to what follows the last separator, and is clean. |
| LineReassembler.FlushBuffers | subproclines.py:127-131 | The final loop emits `LineSpec.FlushOrder` of the joined buffers, in insertion order. |
| LineReassembler.CleanJoin | subproclines.py:91-94 | A buffer of non-empty fragments without separator joins to bytes without separator, which are empty only when the buffer is empty. |
| LineSpec.SplitFromSpec | subproclines.py:110-125 | The rescan loses no byte. The remainder holds no separator, and every line cut ends with its only separator. |
| LineSpec.ChunkLinesRoundTrip | subproclines.py:89-125 | One chunk loses no byte: the emitted lines followed by the new pending bytes are the old pending bytes followed by the chunk. |
| LineSpec.ChunkLinesShape | subproclines.py:89-125 | With no separator pending, a non-empty chunk emits only complete lines and leaves no separator pending. An empty chunk emits at most one line, without separator, and leaves nothing pending. |
| LineSpec.FeedValid | subproclines.py:88-125 | Handling an event keeps the buffers well formed: no pending bytes hold a separator, and the order lists exactly the buffered indices, each once. |
| LineSpec.RunValid | subproclines.py:87-125 | The buffers stay well formed over the whole input. |
| LineSpec.FeedRoundTrip | subproclines.py:88-125 | One event moves bytes of its own index from pending to emitted, without loss or reordering. For every other index it emits nothing and leaves the pending bytes unchanged. |
| LineSpec.RunRoundTrip | subproclines.py:87-125 | While the input is handled, the lines emitted for `i` followed by its pending bytes are exactly the bytes received for `i`. |
| LineSpec.FlushOrderData | subproclines.py:127-131 | The final flush carries, for each index, exactly its pending bytes. |
| LineSpec.LinesRoundTrip | subproclines.py:84-131 | For every index, the emitted lines, concatenated in emission order, equal its input chunks concatenated in input order. |
| LineSpec.FeedShape | subproclines.py:91-125 | All lines one event emits carry the event's index and are emittable. They are all complete when the chunk is non-empty. |
| LineSpec.RunShape | subproclines.py:87-125 | Every line emitted before the final flush is emittable. When no chunk is empty, every line is complete. |
| LineSpec.LinesShape | subproclines.py:91-131 | Every line `parallel_lines` yields is non-empty and is a complete line or a fragment without separator. |
| LineSpec.FlushOrderLines | subproclines.py:127-131 | Each final-flush line is the non-empty pending bytes of an index in the order, without separator. |
| LineSpec.FlushOrderCovers | subproclines.py:127-131 | Every index in the order with pending bytes gets a final-flush line. |
| LineSpec.FlushOrderSorted | subproclines.py:127-131 | The final flush follows the order strictly, so it emits no index twice. |
| LineSpec.FlushOrderIndices | subproclines.py:127-131 | Every final-flush line carries an index of the order. |
| LineSpec.FirstSeenIndices | subproclines.py:88 | The first-seen order holds exactly the indices that occur in the input. |
| LineSpec.RunOrder | subproclines.py:88 | The buffers' insertion order is the first-seen order of the input's indices, including indices whose chunks were all empty. |
| LineSpec.FinalFlush | subproclines.py:127-131 | The output is the lines emitted while the input was handled, then the final flush. The flush has exactly one line per index with pending bytes, holding exactly those bytes, in first-seen order. |
| LineSpec.FlushShape | subproclines.py:127-131 | The same facts about the final flush of any well-formed state. |
| LineSpec.RunStep | subproclines.py:87-125 | One more event only appends to the output. What it appends carries the event's index, and it moves that index's bytes from pending to emitted in order. Every other index's pending bytes are unchanged. |
| LineSpec.RunPrefix | subproclines.py:87-125 | Output never depends on later input: what a prefix of the input emits is a prefix of the output. |
| LineSpec.EmptyChunkFlushes | subproclines.py:91-98 | An empty chunk for `i` emits exactly the bytes received for `i` and not yet emitted, as one line without separator (nothing when there are none). It leaves `i` with nothing pending. |
| LineSpec.FeedEmpty | subproclines.py:91-98 | An empty chunk emits the pending bytes of its index, if any, and empties them. |
| LineSpec.FeedUnterminated | subproclines.py:91-94 | A non-empty chunk without separator emits nothing and is appended to the pending bytes of its index. |
| LineSpec.FeedLine | subproclines.py:99-108 | A chunk that is one complete line is emitted behind the pending bytes of its index. Those pending bytes are emptied and every other index is left alone. |
| LineSpec.UnterminatedChunk | subproclines.py:91-94 | A non-empty chunk without separator emits no line and goes behind the pending bytes. |
| LineSpec.OneLineChunk | subproclines.py:99-108 | A chunk holding one complete line emits the pending bytes followed by that line. |
| LineSpec.FreshChunk | subproclines.py:99-125 | With nothing pending, a non-empty chunk is cut exactly as the rescan cuts it. |
| LineSpec.CompleteLinesPassThrough | subproclines.py:84-131 | Chunks that are each one complete line come out unchanged and in arrival order. |
| LineSpec.EmptyInput | subproclines.py:84-131 | No input gives no output. |
| LineSpec.PartialLinesAreJoined | subproclines.py:84-131 | `[(0, b"ab"), (0, b"cd\n"), (0, b"ef")]` yields `[(0, b"abcd\n"), (0, b"ef")]`. |
| LineSpec.HeldFragmentJoins | subproclines.py:84-131 | A fragment without separator is put in front of the next line of its index, and a trailing fragment comes out at the final flush. |
| LineSpec.TwoLinesInOneChunk | subproclines.py:99-125 | `[(0, b"line1\nline2\n")]` yields `[(0, b"line1\n"), (0, b"line2\n")]`. |
| LineSpec.TwoCompleteLines | subproclines.py:99-131 | A chunk holding two complete lines, for an index not seen before, yields exactly those two lines, in order. |
| LineSpec.TwoLinesSplit | subproclines.py:110-125 | Two complete lines back to back are cut into exactly those two lines, with nothing left over. |
| LineSpec.ArrivalOrder | subproclines.py:87-125 | `[(1, b"x\n"), (0, b"y\n")]` yields `[(1, b"x\n"), (0, b"y\n")]`: arrival order, not index order. |
| Multiplexer.ReadSpec | subproclines.py:32 | `os.read` fails exactly for a negative length. Otherwise it returns a prefix of the waiting bytes of at most `n` bytes, empty only for `n == 0` or at end of file. |
| Multiplexer.FdMapSpec | subproclines.py:19-26 | `fd_map` knows exactly the registered descriptors. It maps each to the last position at which it was registered. |
| Multiplexer.FdMapValues | subproclines.py:19-26 | Every position `fd_map` holds is a position of a stream. |
| Multiplexer.Register | subproclines.py:16-26 | Registration lists the streams in `fds` and builds `fd_map`. It registers exactly the streams, each for `POLLIN` only. In the model registration cannot fail (see Left out). |
| Multiplexer.RegisterSelect | subproclines.py:52-62 | `rlist` is the streams and `fd_map` is built as in `parallel_reader_xpoll`. In the model registration cannot fail (see Left out). |
| Multiplexer.ReadInto | subproclines.py:32-35 | Reading one descriptor: a failed read returns its exception; an empty read changes nothing; a non-empty read sets `got_data` and yields the chunk tagged `fd_map[fd]`, or raises `KeyError` for an unregistered descriptor. |
| Multiplexer.PollPass | subproclines.py:29-35 | One pass reads every descriptor reported with `POLLIN`, in the order reported, and yields its non-empty chunks. Entries without `POLLIN` are skipped. |
| Multiplexer.SelectPass | subproclines.py:67-72 | One pass reads every descriptor `select` reported readable, in order, and yields its non-empty chunks. |
| Multiplexer.ParallelReaderXpoll | subproclines.py:12-38 | `parallel_reader_xpoll` yields exactly `XpollSpec`. That means the argument check first, then the loop over the cycles until one finds no data. The hang-up mask does not matter. A rejected buffer size leaves nothing registered with `poll`; otherwise every stream is registered for `POLLIN`. |
| Multiplexer.ParallelReadSelect | subproclines.py:51-75 | `parallel_read_select` as written yields exactly `SelectSpec`: the same loop, with no argument check. |
| Multiplexer.XpollArgumentCheck | subproclines.py:13-14 | In the model, where registration cannot fail, `ValueError` is raised exactly when `buffer_size < 1`. It is raised before any cycle is polled and with nothing yielded. |
| Multiplexer.CyclePassRaised | subproclines.py:30-35 | Once a read raises, the rest of the cycle is not read. |
| Multiplexer.CyclePassYields | subproclines.py:30-35 | A pass yields only non-empty chunks of at most `n` bytes. Each chunk is traced, as in `CyclePassTrace`, to the entry it was read from. Without an exception, the pass found data exactly when it yielded something. |
| Multiplexer.CyclePassTrace | subproclines.py:30-35 | Event `k` of a pass is `read(fd, n)` of the reported entry `YieldPositions(..)[k]`, whose read returned data, tagged with that entry's `fd_map[fd]`. These entries are in the order the cycle reported them. |
| Multiplexer.CyclePassComplete | subproclines.py:30-35 | Conversely, in a pass that raised nothing every reported entry whose read returned data is among `YieldPositions`, so it has an event of its own, and its chunk is yielded. |
| Multiplexer.CyclePassSafe | subproclines.py:30-35 | With `n >= 1` and only registered descriptors reported, a pass raises nothing. |
| Multiplexer.CyclePassEmpty | subproclines.py:30-35 | A cycle whose descriptors are all at end of file yields nothing and finds no data. |
| Multiplexer.CyclePassZero | subproclines.py:32-33 | With `n == 0`, every read returns `b''`, so a pass never finds data. |
| Multiplexer.CyclePassErrors | subproclines.py:30-35 | A pass never raises `ValueError`. |
| Multiplexer.DrainStops | subproclines.py:28-38 | The loop stops right after the first cycle without data, or at the first exception. Every earlier cycle found data, and the loop goes on only while every observed cycle found data. When the observed cycles run out, every one of them found data and raised nothing. |
| Multiplexer.DrainYields | subproclines.py:28-38 | Everything the loop yields is a non-empty chunk of at most `n` bytes, traced as in `DrainTrace`. |
| Multiplexer.DrainTrace | subproclines.py:28-38 | With `DrainOrigins` giving `cs` and `ts`, event `k` of the loop is `read(fd, n)` of entry `ts[k]` of a polled cycle `cs[k]`, whose read returned data, tagged with that entry's `fd_map[fd]`. The events follow the cycles, and within a cycle the order reported. |
| Multiplexer.DrainFrom | subproclines.py:28-38 | Witnesses for `DrainTrace` exist. |
| Multiplexer.DrainComplete | subproclines.py:28-38 | Conversely, every entry whose read returned data, in every cycle the loop polled whose pass raised nothing, is the origin of an event of its own in `DrainOrigins`. So a chunk equal to an earlier one is still yielded, and the number of events is fixed. |
| Multiplexer.TracedJoin | subproclines.py:28-38 | The events of the first cycle followed by events traced in later cycles are traced in the whole sequence of cycles. |
| Multiplexer.DrainStopsAtEof | subproclines.py:28-38 | A first cycle in which every descriptor is at end of file ends the loop with nothing yielded. |
| Multiplexer.DrainSafe | subproclines.py:28-38 | With `n >= 1` and only registered descriptors reported, the loop raises nothing. |
| Multiplexer.DrainErrors | subproclines.py:28-38 | The loop never raises `ValueError`. |
| Multiplexer.XpollSafe | subproclines.py:12-38 | With `buffer_size >= 1` and poll reporting only registered descriptors, `parallel_reader_xpoll` raises nothing. |
| Multiplexer.XpollYields | subproclines.py:12-38 | Everything `parallel_reader_xpoll` yields is a non-empty chunk of at most `buffer_size` bytes, tagged with the position of one of the streams. Each chunk is traced, as in `XpollTrace`, to the `POLLIN` entry it was read from. |
| Multiplexer.XpollTrace | subproclines.py:28-38 | With `XpollOrigins` giving `cs` and `ts`, event `k` of `parallel_reader_xpoll` is `read(fd, n)` of entry `ts[k]` of the `poll.poll()` result `cs[k]`. That entry has `POLLIN` set and its read returned data, and the event is tagged with its `fd_map[fd]`. The events follow the cycles, and within a cycle the order reported. |
| Multiplexer.XpollComplete | subproclines.py:28-38 | Conversely, every entry reported with `POLLIN` whose read returned data, in every cycle `parallel_reader_xpoll` polled whose pass raised nothing, is the origin of an event of its own in `XpollOrigins`. |
| Multiplexer.RepeatedChunksKept | subproclines.py:28-38 | Descriptor 3 holding `b"x"` in two cycles, then a dry cycle: both equal chunks `(0, b"x")` are yielded, and the loop stops after three cycles. |
| Multiplexer.RelocateOrigin | subproclines.py:30-31 | If the `j`-th descriptor read in cycle `c` is an origin of an event, then, after relocation onto the `poll.poll()` result, that result's `j`-th entry with `POLLIN` set is an origin in cycle `c`. |
| Multiplexer.OriginFirst | subproclines.py:28-38 | An entry the first pass yields from is an origin of the loop's events. |
| Multiplexer.OriginLater | subproclines.py:28-38 | After a first cycle with data and no exception, the origins found in the later cycles are origins of the loop's events. |
| Multiplexer.PollinPositionsSpec | subproclines.py:30-31 | `PollinPositions` lists, in increasing order, exactly the entries of a `poll.poll()` result with `POLLIN` set. Its `j`-th entry is the `j`-th descriptor read. |
| Multiplexer.RelocateTraced | subproclines.py:30-31 | Events traced to the descriptors read are traced to the `POLLIN` entries of the `poll.poll()` results. |
| Multiplexer.HangupOnlyStops | subproclines.py:24-38 | A first cycle in which no entry has `POLLIN` set, only `POLLHUP` say, reads nothing and ends the loop. |
| Multiplexer.ReadablesAppend | subproclines.py:30-31 | Filtering a poll result for `POLLIN` distributes over concatenation. |
| Multiplexer.SelectZeroBufferDropsData | subproclines.py:51-75 | As written, `buffer_size == 0` makes `parallel_read_select` stop after its first cycle with nothing yielded, however much data is waiting. `parallel_reader_xpoll` raises `ValueError` for the same size, whatever `poll` reports. |
| Multiplexer.SelectZeroBufferExample | subproclines.py:51-75 | The input that shows it: one stream on descriptor 3 holding `b"x"` yields nothing. |
| Multiplexer.SelectNegativeBufferRaisesLate | subproclines.py:64-72 | As written, a negative `buffer_size` is noticed only by the first read, after `select` has waited. It raises `OSError(EINVAL)` rather than `ValueError`. |
| Multiplexer.ParallelReadSelectChecked | subproclines.py:13-14 | `parallel_read_select` with the check of lines 13-14 in front yields exactly `CheckedSelectSpec`. |
| Multiplexer.CheckedSelectSpecProps | subproclines.py:13-14 | With the check, a size below one raises `ValueError` before any cycle. Otherwise nothing is raised when only registered descriptors are reported, and every chunk is non-empty, at most `n` bytes and tagged with a stream's position. Every chunk is traced, as in `DrainTrace`, to the descriptor `select` reported and it was read from. |
| Multiplexer.CheckedSelectAgreesWithXpoll | subproclines.py:51-75 | With the check added, the select reader behaves exactly like `parallel_reader_xpoll` when `select` reports the descriptors that poll reports with `POLLIN`. |

## Left out

- The default `buffer_size`, `BUFSIZ = 1024 * 4` (line 10), is not modelled. Every entry point takes the size as a parameter.
- `subprocchunks` and `subproclines` (lines 136-141) are not modelled. They launch a process with `subprocess.Popen` and chain the two stages, which adds no logic. The model states each stage separately.
- The constants `STDOUT` and `STDERR` (lines 133-134) are not modelled.
- Multiplexer.Register, Multiplexer.RegisterSelect: registration cannot fail in the model, because a stream is modelled by its descriptor. The source can raise while registering (lines 20-24, 58-60). `stream.fileno()` raises `ValueError` on a closed stream, or `io.UnsupportedOperation` when there is no descriptor. `fcntl` and `poll.register` raise `ValueError` on a negative descriptor and `OSError` on other bad ones. `XpollSpec` and `SelectSpec` therefore never raise during registration.
- The `fcntl` calls that set non-blocking mode (lines 22, 60) are not modelled. Non-blocking behaviour is instead assumed by `Read`, which returns what is waiting without blocking.
- `poll.register`, `poll.poll`, `select.select` and `os.read` are modelled only through their results. The `cycles` input and `Read` stand for the system calls. Read errors other than a negative length are not modelled, and neither are short reads smaller than the bytes waiting.
- `select.epoll` and `poll.close()` in `parallel_read_epoll` (lines 40-46) are not modelled: the resource cleanup happens outside the loop. `parallel_read_epoll` and `parallel_read_poll` (lines 40-49) only pass their own mask constants to `parallel_reader_xpoll`, which is modelled with the mask as a parameter.
- The choice of mechanism by `hasattr(select, ...)` (lines 77-82) is not modelled. It is runtime capability probing.
- Registering the same descriptor twice is not modelled as an error. `epoll.register` would raise; the model's `fd_map` keeps the last position.
- Generator laziness and cancellation by the consumer are not modelled. Each generator is a function of a finite input. A multiplexer run that the observed cycles cut short ends in `Running`.
- LineReassembler.ScanLines: the fragment after the last separator is returned as a new one-fragment buffer. The source appends it to the buffer, which is always empty at that point.

## Findings

| source | as written | input that shows it | evidently intended | confidence | as-written member | corrected member |
|---|---|---|---|---|---|---|
| subproclines.py:51-75 | `parallel_read_select` does not check `buffer_size`, unlike `parallel_reader_xpoll` at lines 13-14. A size of 0 makes every read return `b''`, so the generator ends after one cycle and yields nothing. A negative size raises `OSError(EINVAL)` only after `select` has waited. | `buffer_size=0`, one stream on descriptor 3 with `b"x"` waiting. | `ValueError("buffer size must be >= 1")` before any stream is touched, as the other readers do. | not executed | Multiplexer.SelectZeroBufferDropsData | Multiplexer.CheckedSelectSpecProps |
