# Streaming speech playback and the body-tracking watcher, in Dafny

This project models two small pieces of sequential logic in `SampleManager`, the
Unity script of the Azure Embodied AI sample. Both are proved correct against
their specifications.

1. **The streaming PCM reader callback.** `SpeakAsyncUnity` creates a streaming
   `AudioClip` whose reader callback is invoked by the audio engine with a
   `float[]` chunk. Each call allocates a `2 * chunkSize` byte staging array and
   pulls up to that many bytes from the synthesis result's `AudioDataStream`.
   It decodes every whole little-endian 16-bit frame into `short / 32768`,
   writes silence into the remaining slots, and clears the captured
   `isFirstAudioChunk` flag on the first non-empty read. When a read returns
   0 bytes, it posts a "clear the clip and stop" request to the main thread.
2. **`WatchAsync`.** This loop counts a millisecond budget down in 250 ms
   steps. It stops when body tracking reports a body, when the budget is
   spent, or when cancellation is seen after a delay. It returns the
   body-tracking flag.

Files:

- `pcm.dfy` (module `Pcm`) is the frame decoder. `ToInt16` is the
  `(short)(hi << 8 | lo)` cast and `SampleOf` is the division by 32768.
  `Decode` describes the whole chunk the callback writes. `Encode` is the
  inverse of `Decode`, and lemmas prove both round trips, the dropped odd
  byte, and that decoding can be split at frame boundaries.
- `audio_stream.dfy` (module `AudioStream`) models the synthesis stream as
  the blocks of audio it still holds. `ReadData` copies at most one buffer's
  worth from the front block and returns the count. It returns 0 only when the
  stream is drained or the buffer is empty, and a drained stream stays drained.
- `clip_reader.dfy` (module `ClipReader`) holds `StreamingClipReader`. This
  class holds the stream, the `isFirstAudioChunk` flag, the log of posted
  requests and a ghost log of read sizes. Its `Fill` method is the callback,
  and `WriteSamples` is the callback's `for` loop. Two client methods replay
  scenarios through the contracts:
  - `ThreeShortReadsThenEnd`: three short reads, then the end of the stream.
  - `DrainedStreamPostsEveryTime`: every read of a drained stream posts again.
- `watch.dfy` (module `Watch`) holds `WatchAsync`. The body-tracking flag and
  the cancellation token are oracle functions indexed by the number of delays
  so far. `FirstStop` is the reference definition of where the loop stops, and
  lemmas bound and pin down the number of iterations.

Where the design description and the code differ, the model follows the code:

- The design describes a `Finished` state. Under that design, later calls
  render silence without touching the stream, and the completion signal fires
  exactly once. The callback has no such state: every call reads the stream
  again, and every zero-length read posts another stop request.
  `Fill`'s contract and `DrainedStreamPostsEveryTime` state this.
- A chunk of length 0 gets a 0-byte staging array, so its read also returns 0
  and posts a stop request even if audio remains. `Fill`'s contract states this
  case as well.
- The design says the watcher decrements the budget and then tests the
  predicate. The code tests the flag and the budget before each delay, and
  cancellation after it. `FirstStop` follows the code.

## Model

| member | source | states |
|---|---|---|
| `Pcm.ToInt16` | apps/Sample/Assets/Scripts/SampleManager.cs:167 | the frame read from two bytes is a signed 16-bit value; it is negative exactly when the high byte's top bit is set |
| `Pcm.SampleOf` | apps/Sample/Assets/Scripts/SampleManager.cs:167 | every decoded sample lies in [-1, 1), and multiplied by 32768 it is exactly the 16-bit frame |
| `Pcm.Decode` | apps/Sample/Assets/Scripts/SampleManager.cs:163-173 | a chunk of `count` slots: slots below `readBytes / 2` hold the little-endian frame from bytes `2i` and `2i+1`, every later slot is 0.0, and every slot lies in [-1, 1) |
| `Pcm.Int16BytesRoundTrip` | apps/Sample/Assets/Scripts/SampleManager.cs:167 | splitting any 16-bit value into low and high bytes and reading it back as a frame gives the value again |
| `Pcm.BytesInt16RoundTrip` | apps/Sample/Assets/Scripts/SampleManager.cs:167 | reading any byte pair as a frame and splitting it again gives the same two bytes |
| `Pcm.QuantizeSample` | apps/Sample/Assets/Scripts/SampleManager.cs:167 | rounding a decoded sample times 32768 gives back its frame, so the float conversion loses nothing |
| `Pcm.SampleOnGrid` | apps/Sample/Assets/Scripts/SampleManager.cs:167 | every decoded sample is k / 32768 for a 16-bit k |
| `Pcm.EncodeDecode` | apps/Sample/Assets/Scripts/SampleManager.cs:163-173 | for an even number of bytes, re-encoding the decoded chunk reproduces the bytes exactly |
| `Pcm.DecodeEncode` | apps/Sample/Assets/Scripts/SampleManager.cs:163-173 | samples on the 16-bit grid survive encoding followed by decoding |
| `Pcm.OddTrailingByteDropped` | apps/Sample/Assets/Scripts/SampleManager.cs:165-172 | an odd trailing byte does not change the chunk: it is dropped without error |
| `Pcm.DecodeAppend` | apps/Sample/Assets/Scripts/SampleManager.cs:163-173 | decoding two byte runs split at a frame boundary, one after the other, equals decoding them joined |
| `Pcm.DecodeCons` | apps/Sample/Assets/Scripts/SampleManager.cs:165-167 | the first slot comes from the first two bytes, and the rest of the chunk is the decoding of the remaining bytes |
| `AudioStream.ReadSize` | apps/Sample/Assets/Scripts/SampleManager.cs:157 | a read never returns more bytes than the buffer holds, nor more than the front block has |
| `AudioStream.AudioDataStream.ReadData` | apps/Sample/Assets/Scripts/SampleManager.cs:157 | the count is at most the buffer length; the buffer's prefix is the next bytes of the stream and its rest is untouched; the stream advances by the count; 0 is returned exactly when the stream is drained or the buffer is empty, and a drained stream is left unchanged |
| `AudioStream.AudioDataStream.constructor` | apps/Sample/Assets/Scripts/SampleManager.cs:145 | the stream starts out holding the synthesized audio, in non-empty blocks |
| `ClipReader.WriteSamples` | apps/Sample/Assets/Scripts/SampleManager.cs:163-173 | every slot of the chunk is overwritten with the decoding of the first `readBytes` staged bytes, silence after the last whole frame |
| `ClipReader.StreamingClipReader.constructor` | apps/Sample/Assets/Scripts/SampleManager.cs:145-146 | a new reader has `isFirstAudioChunk` set, has posted nothing and has read nothing |
| `ClipReader.StreamingClipReader.Fill` | apps/Sample/Assets/Scripts/SampleManager.cs:153-182 | reads at most `2 * chunkSize` bytes; the whole chunk becomes `Decode` of exactly the bytes taken off the stream; the flag is cleared by the first non-empty read and never set again; one stop request is posted exactly when the read returned 0, on every such call; the invariant "flag set iff every read was empty, one post per empty read" is kept |
| `ClipReader.ConsistentStep` | apps/Sample/Assets/Scripts/SampleManager.cs:158-181 | one more call keeps the captured state consistent with the reads so far: the flag stays set exactly while every read was empty, and there is one posted stop request per empty read |
| `Watch.FirstStop` | apps/Sample/Assets/Scripts/SampleManager.cs:220-227 | the least number of delays, from `k` on, after which the loop is over: cancellation seen, budget spent or body tracked |
| `Watch.WatchAsync` | apps/Sample/Assets/Scripts/SampleManager.cs:214-232 | the loop stops at `FirstStop`, at most ceil(timeLimit / 250) delays; it returns the flag at exit; `timeElapsed` is 250 times the iterations that completed without cancellation; with a budget of zero or less, or a body already tracked, the body never runs |
| `Watch.TicksWithinBudget` | apps/Sample/Assets/Scripts/SampleManager.cs:218-222 | whatever the flag and the token do, the loop runs at most ceil(timeLimit / 250) times |
| `Watch.TimesOutAfterBudget` | apps/Sample/Assets/Scripts/SampleManager.cs:220-222 | with no body and no cancellation the loop runs exactly ceil(timeLimit / 250) times |
| `Watch.OneSecondTimeout` | apps/Sample/Assets/Scripts/SampleManager.cs:216-231 | a 1000 ms budget with no body and no cancellation takes 4 delays and counts 1000 ms |
| `Watch.BodyTrackedOnThirdTick` | apps/Sample/Assets/Scripts/SampleManager.cs:220-231 | a body first seen after the third delay ends the loop after 3 delays with 750 ms counted |
| `Watch.CancelledAfterFirstDelay` | apps/Sample/Assets/Scripts/SampleManager.cs:223-228 | cancellation seen after the first delay breaks out before any time is counted |

## Left out

- Speech SDK set-up, synthesis and recognition (`Start`, `SpeakAsyncSystem`, `ListenAsync`, `OnDestroy`): calls into an SDK whose code is not part of this model, plus credential file loading.
- The rest of `SpeakAsyncUnity`: creating the 600-second clip, `AudioSource.Play` and the 100 ms wait loop are engine I/O.
- The thread marshalling of `synchronizationContext.Post` and what the posted action does on the main thread: the model records only that a `ClearClipAndStop` request was posted.
- `UpdateBodyTracking` and the skeletal tracking provider: an external sensor, modelled as the oracle `tracked`.
- The conversion `(int)(timeOut * 1000)`: floating point; `WatchAsync` takes the millisecond budget as an integer.
- `WebApiAsync*`, `Parse*Response`, `GenerateSsml` and the empty event handlers: HTTP, JSON and XML library wrappers with no logic of their own.
- AudioStream.AudioDataStream.ReadData: the real stream may block on the network and decides internally how much to return; the model fixes one policy: a read never crosses a block boundary.
- Watch.WatchAsync: the counters are unbounded integers. In C#, `timeElapsed` could wrap only for budgets above 2147483500 ms, and nothing reads it. `timeElapsed` and the delay count are returned only so that the contract can state them.
- ClipReader.StreamingClipReader.Fill: samples are reals. `short / 32768.0F` is exact in single precision, so nothing is lost. `readBytes` is returned only to state the contract. A chunk's length cannot change, because Dafny arrays have a fixed length.
