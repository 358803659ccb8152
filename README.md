# SRBeep audio core in Dafny

SRBeep is an OBS Studio plugin. It plays a short sound when streaming,
recording or the replay buffer starts, stops, pauses, resumes or saves. Each
sound is decoded by FFmpeg on its own thread. The decoded audio goes into a
ring buffer of `AudioData<1024>` chunks, and SDL's audio callback
`fill_audio` drains that buffer.

This project models that sequential core and proves properties of it:

- `ring_buffer.dfy` (module `RingBuffers`): the generic fixed-capacity
  `RingBuffer` of RingBuffer.h. It is a class with its slot array, read
  cursor `idx`, write cursor `endIdx` and `full` flag. Its abstract view
  `Contents()` is the held elements, oldest first.
- `fifo.dfy` (module `Fifo`): a pure bounded FIFO queue used as the reference
  definition. `Replay` runs any sequence of calls on a new `RingBuffer`, and
  its contract shows the buffer answers every call as the queue does.
- `audio_data.dfy` (module `AudioChunks`): the `AudioData` chunk and the
  unread bytes of a sequence of chunks.
- `fill_audio.dfy` (module `Mixer`): the audio callback. It is a loop over
  the ring buffer and the output array, proved against the pure function
  `Consume` and the predicate `Filled`.
- `slicing.dfy` (module `Slicing`): the producer step of `play_clip`. A
  sample count becomes a byte count, and the converted bytes are cut into
  chunks. This module also proves that bytes pushed by the producer come out
  of the consumer in order.
- `clean_path.dfy` (module `Paths`): `clean_path`, non-Windows branch. It is a
  loop method proved against a pure specification.
- `events.dfy` (module `Events`): the front-end event dispatch. It maps an
  event to the thread slot and the asset file it plays.
- `wrappers.dfy` (module `Wrappers`): `Option`, which stands for a pointer that
  may be null and for `npos`.

Points where the model follows the code rather than the names:

- `get_remaining_space` returns the number of OCCUPIED slots, not the free
  ones. `RingBuffer.GetRemainingSpace` states that.
- `fill_audio` calls `pop(nullptr, nullptr)`, but the header declares a
  one-argument `pop(cleanup_fn)`. The model's `Pop(cleanup)` takes a flag
  saying whether a cleanup function is given. It returns the element that
  cleanup would be called on. `fill_audio` passes no cleanup.
- `top` returns a pointer that `fill_audio` writes through. This is modelled
  as the query `Top` followed by the method `WriteTop`, which writes the
  front slot in place.

## Model

| member | source | states |
|---|---|---|
| RingBuffers.RingBuffer.constructor | RingBuffer.h:8-10 | a new buffer has both cursors at 0, `full` false, `CAPACITY` slots, the invariant, and empty contents |
| RingBuffers.RingBuffer.GetCapacity | RingBuffer.h:12-14 | the capacity is the slot count, and it is positive |
| RingBuffers.RingBuffer.IsEmpty | RingBuffer.h:16-29 | `idx == end_idx && !full` holds exactly when the buffer holds nothing |
| RingBuffers.RingBuffer.HasSpace | RingBuffer.h:33-46 | `!(idx == end_idx && full)` holds exactly when the buffer holds fewer than `CAPACITY` elements |
| RingBuffers.RingBuffer.GetRemainingSpace | RingBuffer.h:50-69 | the three-branch count is the number of held elements, between 0 and `CAPACITY` |
| RingBuffers.RingBuffer.EndFollowsSize | RingBuffer.h:84-93 | the write cursor is the read cursor plus the element count, mod `CAPACITY`; the cursors meet with `full` clear exactly when empty, and `full` is set exactly when the count is `CAPACITY` |
| RingBuffers.RingBuffer.Top | RingBuffer.h:124-148 | the front is null exactly when empty, and otherwise it is the oldest held element |
| RingBuffers.RingBuffer.Push | RingBuffer.h:73-120 | accepted exactly when not full; a refused push changes no cursor, flag or slot; an accepted push appends the value to the contents, writes only `data[end_idx]`, advances `end_idx` mod `CAPACITY` and sets `full` exactly when the cursors meet; the invariant is kept |
| RingBuffers.RingBuffer.Pop | RingBuffer.h:152-174 | on an empty buffer, nothing changes and no cleanup runs; otherwise it drops the oldest element, advances `idx` mod `CAPACITY`, clears `full`, keeps `end_idx`, and hands the dropped element to the cleanup when there is one; slots are not in its frame |
| RingBuffers.RingBuffer.WriteTop | SRBeep.cpp:148 | a write through the front pointer replaces the oldest element and that slot only |
| Fifo.FinalQueueBounded | RingBuffer.h:84-85 | a bounded queue never holds more than its capacity, whatever the calls |
| Fifo.PushesAccepted | RingBuffer.h:83-94 | pushes into a queue with room for all of them are all accepted, and they are appended in order |
| Fifo.DrainsInOrder | RingBuffer.h:142-174 | reading the front and popping, once per element, yields the elements oldest first and leaves the queue empty |
| Fifo.FifoRoundTrip | RingBuffer.h:83-174 | pushing k <= capacity elements into an empty queue, then reading and popping k times, gives them back in push order and leaves it empty |
| Fifo.Apply | RingBuffer.h:73-174 | one call on the ring buffer has the new contents and the reply of one step of the reference queue |
| Fifo.Replay | RingBuffer.h:8-174 | any call sequence run on a new ring buffer gives the reference queue's replies and final contents |
| AudioChunks.Pending | SRBeep.cpp:30-38 | the unread part of a chunk is `audio_len - audio_offset` bytes long |
| AudioChunks.AdvanceFront | SRBeep.cpp:144-148 | advancing the front chunk's offset by m keeps chunks well-formed and drops exactly the first m unread bytes |
| Mixer.Consume | SRBeep.cpp:136-161 | the chunks left after a request are well-formed and no more than before |
| Mixer.ConsumeUnread | SRBeep.cpp:136-161 | a request for k bytes removes exactly the first min(k, available) unread bytes, in FIFO order |
| Mixer.ConsumeExhausts | SRBeep.cpp:136-161 | either all requested bytes were available, or no chunk is left |
| Mixer.ConsumeShape | SRBeep.cpp:144-157 | only fully read chunks are popped, from the front; the surviving front chunk has the same bytes and length and a larger or equal offset, and it is untouched or still short of its length; the chunks behind it are untouched |
| Mixer.AfterRound | SRBeep.cpp:144-157 | one round keeps the chunks well-formed |
| Mixer.RoundKeepsInvariant | SRBeep.cpp:136-161 | one round of the callback's loop keeps the drain invariant: output so far is the unread prefix, silence after it, held chunks are the rest |
| Mixer.FillOutcome | SRBeep.cpp:132-162 | when the loop ends, the invariant and the exit condition give the full callback outcome |
| Mixer.MixAudio | SRBeep.cpp:146 | mixing into silence at full volume copies the source bytes to `stream[stream_offset..]` and changes nothing else |
| Mixer.MixLockedTop | SRBeep.cpp:138-153 | the locked block finds a chunk exactly when the buffer is non-empty; it mixes `min(len, audio_len - audio_offset)` of its unread bytes, advances its offset in place, and reports whether it is now read to its end |
| Mixer.MixRound | SRBeep.cpp:137-157 | the locked block plus the pop of a fully read chunk leave the chunks of one round of `Consume`, and splice the mixed bytes into the stream |
| Mixer.FillAudio | SRBeep.cpp:116-163 | on return the buffer holds `Consume(old contents, len)`; `stream[0..n)` is the first n unread bytes in FIFO order, with n = min(len, total unread); `stream[n..len)` is zero; either n == len or the buffer is empty; bytes past `len` are untouched |
| Slicing.ConvertedByteCount | SRBeep.cpp:345-349 | a positive sample count becomes samples * 2 channels * 2 bytes; a zero or negative result stays non-positive, so nothing is sliced |
| Slicing.NewChunk | SRBeep.cpp:354-357 | a filled chunk is well-formed, has offset 0 and length equal to the piece, and its unread bytes are the piece |
| Slicing.Slices | SRBeep.cpp:352-364 | the chunks for any byte sequence are well-formed |
| Slicing.SlicesShape | SRBeep.cpp:355-356 | every chunk has offset 0 and between 1 and 1024 bytes, and all but the last hold 1024 |
| Slicing.SlicesCount | SRBeep.cpp:353-359 | there is one chunk per started 1024 bytes |
| Slicing.SlicesUnread | SRBeep.cpp:352-359 | the unread bytes of the chunks are exactly the sliced bytes |
| Slicing.SlicedThenDrained | SRBeep.cpp:136-161 | producer chunks drained by a request for k bytes leave exactly the bytes after the first k |
| Slicing.SliceOutBuffer | SRBeep.cpp:352-364 | the loop over `out_buffer[0..out_buffer_size)` pushes exactly `Slices` of those bytes, and nothing when the size is not positive |
| Slicing.SwrOutCountAsWrittenOverflows | SRBeep.cpp:338-346 | the out_count as written, `out_buffer_capacity / 2`, admits a conversion of 768000 bytes into a 384000-byte buffer |
| Slicing.SwrOutCountFits | SRBeep.cpp:224-225 | a conversion fits `out_buffer` exactly when it has at most `out_buffer_capacity / 4` samples per channel |
| Slicing.ProduceChunks | SRBeep.cpp:338-364 | with the corrected out_count, a positive conversion gives chunks whose unread bytes are exactly the converted bytes, and a non-positive one gives no chunk |
| Paths.FindFrom | SRBeep.cpp:397-399 | `std::string::find` from a position: the first occurrence at or after it, or npos when there is none |
| Paths.Find | SRBeep.cpp:397-399 | `std::string::find`: the first occurrence, or npos when there is none |
| Paths.CleanPath | SRBeep.cpp:393-419 | the loop's result is the suffix from the first "..", else the suffix from the first '/', else "" |
| Paths.CleanedPathIsSuffix | SRBeep.cpp:393-419 | the cleaned path is a suffix of the input |
| Paths.CleanedPathShape | SRBeep.cpp:396-418 | the cleaned path is empty or starts with ".." or '/'; it is empty exactly when the input has neither |
| Paths.CleanedPathIdempotent | SRBeep.cpp:393-419 | cleaning a cleaned path changes nothing |
| Events.Dispatch | SRBeep.cpp:436-509 | exactly the nine handled events start a playback; `ps_sto_Thread` is never used; every asset name starts with '/' |
| Events.DispatchFileIdentifiesEvent | SRBeep.cpp:438-508 | each handled event plays a file of its own, so the file name tells the event back |
| Events.SharedSlotIsPause | SRBeep.cpp:462-500 | two different handled events share a thread slot exactly when they are RECORDING_PAUSED and RECORDING_UNPAUSED |

## Left out

- Locking: the `std::mutex`, `lock_guard`, the shared lock that `locked_top` returns, and the `THREAD_SAFE` branches are concurrency. The model is the single-threaded behaviour of the `_impl` members, and `locked_top` is `Top`.
- Threads: the per-event `std::thread` objects, the join before a thread is replaced, and `obs_module_unload` manage thread lifetimes. `Dispatch` only says which slot and file each event uses.
- FFmpeg and SDL: opening, probing, decoding, `swr_convert`, `swr_get_out_samples`, SDL init/open/pause/delay/close, `audioMutex` and `psleep` are foreign calls. The result of `swr_convert` is a parameter of `ProduceChunks`, and the converted bytes are the contents of `out_buffer`.
- Waiting loops: the push-retry loop (SRBeep.cpp:360-363) and the drain wait (SRBeep.cpp:373-376) depend on the other thread making progress. `SliceOutBuffer` collects the pushed chunks into a sequence instead.
- The play gate at SRBeep.cpp:366-369 is not modelled. It unpauses SDL when `get_remaining_space()`, the occupied count, is below half the capacity.
- Error and cleanup paths of `play_clip` manage foreign handles. This includes the missing `return` after a failed `avcodec_alloc_context3` and the decode-error path that skips `swr_free` and `SDL_CloseAudio`.
- MixAudio: SDL_MixAudio's sample arithmetic and clipping are not modelled. Into a silent destination at full volume it is a copy, and the model requires that destination to be zero.
- Pop: the cleanup function's own effects are not modelled. It is an opaque function pointer, and the model only returns the element it would receive.
- NewChunk: the chunk bytes after `audio_len` are left uninitialised by the source, and the model sets them to zero. Nothing reads them.
- ConvertedByteCount: 32-bit overflow of `out_buffer_size * 4` is not modelled. Integers are unbounded, and with the corrected out_count the product is at most 384000.
- The Windows branch of `clean_path` is not modelled, because it depends on the locale's `islower`.
- `play_sound` concatenates `obs_get_module_data_path` with the file name, and the `obs_module_*` functions return metadata strings. Both are OBS API calls.
- RingBuffer capacity: the model works for any positive capacity, not only the 32 of `RingBufferT`.

## Findings

| source | as written | input that shows it | evidently intended | confidence | as-written member | corrected member |
|---|---|---|---|---|---|---|
| SRBeep.cpp:338-346 | `swr_convert` may write `out_buffer_capacity / 2` = 192000 samples per channel. At 2 channels of 2 bytes that is 768000 bytes, into a buffer of `out_buffer_capacity` = 384000 bytes. The check at line 331 also compares a sample count with that byte capacity. | a conversion returning 192000 samples, whose byte count 192000 * 4 = 768000 exceeds 384000 | out_count = `out_buffer_capacity / (2 * 2)` = 96000 samples per channel, so every conversion fits the buffer | not executed | Slicing.SwrOutCountAsWrittenOverflows | Slicing.SwrOutCountFits |
