# onmi playback core, modelled in Dafny

This project models three sequential pieces of the onmi audio player and
proves properties of them:

- `RingBuffers` (`rb.dfy`): `RingBuffer<T>`, a fixed-capacity circular
  queue over a slot array with `head`, `tail` and `len`. `push` overwrites
  the oldest element when full; `try_push` drops the new one. The object
  invariant ties the indices to the occupied slots and to the abstract
  contents (oldest first), and every operation is specified on those
  contents.
- `ThreadCells` (`thread_cell.dfy`): `ThreadCell<T>`, a cell that any thread
  may read and only one thread may write. The first mutable access records
  the writer. A mutable access from another thread panics until
  `reset_thread` clears the writer. Thread identities are a type parameter
  compared only for equality. A panic is the `Panic` outcome, or the `fault`
  result of `DerefMut`. `Step` and `Run` give the value-level meaning of one
  access and of a sequence of accesses.
- `SampleSource` (`sample_source.dfy`) and `Decoder` (`decoder.dfy`): the
  `Symphonia` sample source. `next_packet` does bounded retries and detects
  the end of the stream. `next_sample` walks a cursor over the current
  packet's samples. `seek` has its short-circuit and force-set rules.
  `SampleSource` states these as functions on values. The `Symphonia` class
  in `Decoder` keeps the source's fields and runs the self-recursive retries
  as loops. Each of its methods is proved equal to the corresponding
  function.
  The container reader and the codec are an oracle: the sequence of results
  `format_reader.next_packet` will give (`Packet(ts, decoded)`,
  `UnexpectedEof`, `ReadError`). Each packet carries what decoding it gives
  (`Samples(s)` or `DecodeError`). Reading past the end of that sequence
  gives `UnexpectedEof`, as a reader at the end of its file does. The
  `ELAPSED` and `DURATION` globals are the fields `elapsed` and `duration`,
  in whole nanoseconds.

`Output` is the reference meaning of a sample source: the rest of the
current buffer, then the samples of every packet `next_packet` will still
return. `NextSampleYieldsOutput` shows that `next_sample` produces exactly
that sequence, one sample at a time.

Three consequences of the code are worth stating on their own:

- The limit is three failures in a row, and a decode failure can only be
  the first of the three: it leaves `error_count` at 1 (decoder.rs:166-168),
  and the next successful read resets it (decoder.rs:127-130). So any number
  of undecodable packets before a good one is skipped
  (`DecodeFailuresDoNotAccumulate`), while an undecodable packet followed
  by two failed reads gives up (`DecodeThenTwoReadErrorsGivesUp`), as do
  three failed reads (`GivesUpAfterThreeFailures`).
- Once `error_count` exceeds 2, `next_packet` returns at once without
  reading (decoder.rs:122-124), and `seek` never touches the count, so a
  source that gave up stays that way (`ErrorLimitSurvivesSeek`). Likewise
  `finished` is never cleared (`FinishedSurvivesSeek`).
- `next_sample` also returns None when the error limit is reached without
  `finished` being set (`ExhaustedReader`, `NextSample`).

## Model

| member | source | states |
|---|---|---|
| `RingBuffers.RingBuffer.constructor` | src/rb.rs:17-31 | requires a capacity above 0 (the source asserts it); the buffer starts empty with head = tail = len = 0 and every slot None |
| `RingBuffers.RingBuffer.Capacity` | src/rb.rs:34-36 | the capacity is positive and bounds the number of stored elements |
| `RingBuffers.RingBuffer.Len` | src/rb.rs:39-41 | the length is the number of queued elements |
| `RingBuffers.RingBuffer.IsEmpty` | src/rb.rs:44-46 | true exactly when no element is queued |
| `RingBuffers.RingBuffer.IsFull` | src/rb.rs:49-51 | true exactly when the number of queued elements equals the capacity |
| `RingBuffers.RingBuffer.FullHeadIsTail` | src/rb.rs:56-61 | on a full buffer head equals tail, so writing at head overwrites the oldest element |
| `RingBuffers.RingBuffer.Push` | src/rb.rs:55-70 | keeps the invariant; not full: the item is appended and len grows by one; full: the oldest element is dropped, the item appended, len stays the capacity and tail advances; head advances modulo the capacity |
| `RingBuffers.RingBuffer.TryPush` | src/rb.rs:72-83 | full: nothing at all changes; otherwise appends like a non-full push |
| `RingBuffers.RingBuffer.Pop` | src/rb.rs:87-100 | empty: returns None and nothing changes; otherwise returns the oldest element, empties its slot, advances tail and leaves the remaining elements in order (FIFO) |
| `RingBuffers.RingBuffer.Peek` | src/rb.rs:104-110 | the oldest element, or None when empty, without any change |
| `RingBuffers.RingBuffer.PeekMut` | src/rb.rs:114-120 | empty: None and no change; otherwise returns the oldest element and the caller's edit replaces it in place, the rest unchanged |
| `RingBuffers.RingBuffer.Clear` | src/rb.rs:123-132 | every slot None, head = tail = len = 0, contents empty, capacity unchanged |
| `ThreadCells.Step` | src/thread_cell.rs:35-66 | a read never faults and changes nothing; a reset clears the writer and keeps the data; a write is allowed exactly when there is no writer or it is the writer, then records that thread as the writer; otherwise a panic naming both threads |
| `ThreadCells.SingleWriter` | src/thread_cell.rs:52-66 | without resets, a sequence of accesses runs without a panic if and only if every write comes from one thread (the recorded writer, if any), which is the writer afterwards |
| `ThreadCells.ThreadCell.constructor` | src/thread_cell.rs:13-18 | the data with no writer recorded |
| `ThreadCells.ThreadCell.ResetThread` | src/thread_cell.rs:35-37 | clears the writer and leaves the data untouched |
| `ThreadCells.ThreadCell.Deref` | src/thread_cell.rs:40-47 | a read from any thread (no precondition) returns the data and changes nothing |
| `ThreadCells.ThreadCell.DerefMut` | src/thread_cell.rs:52-66 | allowed exactly when there is no writer or the caller is the writer; then the caller becomes (or stays) the writer and its write lands; otherwise a fault and the cell is unchanged |
| `SampleSource.TryRead` | src/decoder.rs:126-170 | one read consumes one reader result; per kind of read: a read error, or an end of input at least one second before the duration, retries with error_count + 1; an end of input less than one second before the duration finishes with None; a packet past the duration finishes with None, elapsed = its timestamp and count 0; an undecodable packet retries with count 1 and elapsed = its timestamp; a decoded packet is returned with count 0 and elapsed = its timestamp |
| `SampleSource.NextPacket` | src/decoder.rs:121-171 | finished or error_count > 2: None and nothing changes; error_count stays at most 3; duration is kept; None leaves the source finished or at the error limit; a packet comes with error_count 0, not finished and elapsed within the duration |
| `SampleSource.NextPacketReadsInOrder` | src/decoder.rs:126-164 | the reader's results are consumed in order, and a returned packet is the last one read, stamped with the new elapsed position |
| `SampleSource.NextSample` | src/decoder.rs:99-119 | cursor within the buffer, 0 without one; with samples left, returns the one under the cursor and advances it without fetching; None only with no buffer and next_packet giving up; finished is never cleared |
| `SampleSource.NextSampleYieldsOutput` | src/decoder.rs:99-119 | the samples next_sample returns are exactly the rest of the current buffer followed by the concatenated samples of the packets next_packet returns; after None nothing is left |
| `SampleSource.Seek` | src/decoder.rs:78-97 | past the duration only finished is set (no reader seek, elapsed kept); otherwise elapsed is forced to the target whatever the reader's seek gives; buffer, cursor and error_count untouched in both branches |
| `SampleSource.TransientFailures` | src/decoder.rs:131-146 | each read error or far end of input adds one to error_count and is skipped |
| `SampleSource.GivesUpAfterThreeFailures` | src/decoder.rs:122-146 | three failed reads in a row make next_packet return None with error_count 3 |
| `SampleSource.RecoversAfterFewerFailures` | src/decoder.rs:122-164 | fewer than three failed reads before a good packet are skipped; the packet is returned with error_count 0 |
| `SampleSource.ExhaustedReader` | src/decoder.rs:132-141 | at the end of input within one second of the duration the source finishes; further away it retries until error_count is 3 without finishing |
| `SampleSource.EofNearEndFinishes` | src/decoder.rs:132-136 | an end of input read anywhere in the input, within one second of the duration, finishes the source and returns None |
| `SampleSource.PacketPastDuration` | src/decoder.rs:150-157 | a packet stamped past the duration finishes the source, whatever decoding it would give |
| `SampleSource.DecodeFailuresDoNotAccumulate` | src/decoder.rs:126-170 | any number of undecodable packets before a good one are skipped, because each read resets error_count |
| `SampleSource.DecodeThenTwoReadErrorsGivesUp` | src/decoder.rs:122-168 | an undecodable packet followed by two read errors makes next_packet return None with error_count 3, not finished, elapsed at the packet's timestamp |
| `SampleSource.SeekPastEndDrains` | src/decoder.rs:82-85 | after a seek past the duration only the rest of the current buffer is produced |
| `SampleSource.ErrorLimitSurvivesSeek` | src/decoder.rs:122-124 | once error_count exceeds 2, no seek makes the source produce more than the rest of its buffer |
| `SampleSource.FinishedSurvivesSeek` | src/decoder.rs:82-96 | a finished source stays finished across any seek |
| `Decoder.Symphonia.constructor` | src/decoder.rs:49-71 | duration = start_ts + n_frames (0 when unknown); error_count 0, not finished, no buffer, cursor 0 |
| `Decoder.Symphonia.Seek` | src/decoder.rs:78-97 | the new state is `SampleSource.Seek` of the old; a reader seek is recorded only when the target is within the duration |
| `Decoder.Symphonia.NextPacket` | src/decoder.rs:121-171 | the result and new state are `SampleSource.NextPacket` of the old state; buffer and cursor untouched |
| `Decoder.Symphonia.NextSample` | src/decoder.rs:99-119 | the result and new state are `SampleSource.NextSample` of the old state |

## Left out

- WASAPI device setup, the render loops, buffer acquire/release and event waits (src/output.rs, src/audio.rs, src/main.rs): hardware I/O and timing.
- Timing-drift and underrun warnings: they depend on the wall clock.
- Float sample scaling, volume and gain, and little-endian byte writes: floating point.
- `Player` and `PlaybackThread` (src/lib.rs): thread spawning over global mutable state; their transport flags are plain setters.
- `PacketRequest::next_sample` in src/main.rs: a copy of `Symphonia::next_sample` that panics instead of returning None.
- Symphonia probing, codec construction and decoding: library internals, represented only by the reader/decoder oracle. `Symphonia.constructor` therefore takes the start timestamp, the frame count and the reader's results as parameters.
- `TimeBase::calc_time`: a library conversion. Timestamps and the duration are taken to be in nanoseconds already, i.e. the conversion is the identity.
- `Decoder.Symphonia.Seek`: the `f32` seconds argument and `Duration::from_secs_f32` are floating point; the target is whole nanoseconds. What the reader gives after the coarse seek is the parameter `after`; the seek's own error result is discarded, as in the source.
- `Decoder.Symphonia.constructor`: `new` does not write `ELAPSED`, so its value there is a parameter. A failed `File::open`, probe or codec lookup is not modelled.
- `ThreadCells.ThreadCell.DerefMut`: the mutable reference is modelled as the one write `value` made through it; later writes through the same reference are not modelled. The current thread's id is the parameter `id`.
- `RingBuffers.RingBuffer.PeekMut`: the mutable reference is modelled as one edit `edit` of the oldest element.
- `RingBuffers.RingBuffer.Push`, `TryPush`, `Pop`: `usize` overflow of the indices cannot occur, because they stay below the capacity, so integers are unbounded.
- `error_count` is a `u8` in the source; it never exceeds 3 (`NextPacket` keeps `PacketInv`), so no wrap-around arises.
- `Decoder.Symphonia.NextPacket`: each retry in the source is one more nested `self.next_packet()` call, so a long run of undecodable packets grows the stack without bound; the recursion depth and a possible stack overflow are not modelled (the model retries in a loop over a finite input).
- Concurrency: `ThreadCell` is modelled sequentially; real simultaneous access from two threads is not modelled.
