/** The PCM reader callback of the streaming speech clip: each time the audio
    engine wants `chunkSize` more samples it pulls up to `2 * chunkSize` bytes
    from the synthesis stream, decodes the whole frames, pads the rest of the
    chunk with silence, and on an empty read asks the main thread to clear the
    clip and stop playback. */
module ClipReader {
  import opened Pcm
  import opened AudioStream

  /** What the callback posts to the main thread: `clip := null; Stop()`. */
  datatype Post = ClearClipAndStop

  /** The number of zero-length reads in a history of read sizes. */
  function ZeroReads(history: seq<nat>): (n: nat)
    ensures n <= |history|
  {
    if history == [] then 0
    else ZeroReads(history[..|history| - 1]) + (if history[|history| - 1] == 0 then 1 else 0)
  }

  /** What the callback's captured state says about the reads so far: the flag
      is still set exactly when every read was empty, and one stop request was
      posted per empty read. */
  predicate Consistent(isFirstAudioChunk: bool, postCount: nat, history: seq<nat>) {
    (isFirstAudioChunk <==> forall k :: 0 <= k < |history| ==> history[k] == 0) &&
    postCount == ZeroReads(history)
  }

  /** One more call of the callback keeps the state consistent: the flag drops
      on a non-empty read, and a request is posted on an empty one. */
  lemma ConsistentStep(isFirstAudioChunk: bool, postCount: nat, history: seq<nat>, readBytes: nat)
    requires Consistent(isFirstAudioChunk, postCount, history)
    ensures Consistent(isFirstAudioChunk && readBytes == 0,
                       postCount + (if readBytes == 0 then 1 else 0),
                       history + [readBytes])
  {
    var next := history + [readBytes];
    assert next[..|next| - 1] == history;
    assert ZeroReads(next) == ZeroReads(history) + (if readBytes == 0 then 1 else 0);
    assert (forall k :: 0 <= k < |next| ==> next[k] == 0)
       <==> (forall k :: 0 <= k < |history| ==> history[k] == 0) && readBytes == 0 by {
      assert forall k :: 0 <= k < |history| ==> next[k] == history[k];
      assert next[|history|] == readBytes;
    }
  }

  /** The loop of the callback: slot `i` of `audioChunk` gets the `i`-th
      little-endian frame of the first `readBytes` bytes of the staging buffer
      when those hold it whole, and silence otherwise. */
  method WriteSamples(audioChunk: array<real>, audioChunkBytes: array<byte>, readBytes: nat)
    requires readBytes <= audioChunkBytes.Length
    modifies audioChunk
    ensures audioChunk[..] == Decode(audioChunkBytes[..readBytes], audioChunk.Length)
  {
    ghost var pulled := audioChunkBytes[..readBytes];
    ghost var expected := Decode(pulled, audioChunk.Length);
    for i := 0 to audioChunk.Length
      invariant forall k :: 0 <= k < i ==> audioChunk[k] == expected[k]
    {
      if i < readBytes / 2 {
        assert audioChunkBytes[i * 2] == pulled[2 * i];
        assert audioChunkBytes[i * 2 + 1] == pulled[2 * i + 1];
        audioChunk[i] := SampleOf(audioChunkBytes[i * 2], audioChunkBytes[i * 2 + 1]);
      } else {
        audioChunk[i] := 0.0;
      }
    }
    assert audioChunk[..] == expected;
  }

  /** The reader's state: the stream it drains and the variables its callback
      captures or touches. */
  class StreamingClipReader {
    const stream: AudioDataStream
    /** True until the first read that returns any bytes. */
    var isFirstAudioChunk: bool
    /** The requests posted to the main thread, oldest first. */
    var posted: seq<Post>
    /** The byte count of every read so far, oldest first. */
    ghost var readLog: seq<nat>

    /** The flag says whether every read so far was empty, and there is one
        posted request per empty read. */
    ghost predicate Valid()
      reads this, stream
    {
      stream.Valid() && Consistent(isFirstAudioChunk, |posted|, readLog)
    }

    constructor (stream: AudioDataStream)
      requires stream.Valid()
      ensures Valid() && this.stream == stream
      ensures isFirstAudioChunk && posted == [] && readLog == []
    {
      this.stream := stream;
      isFirstAudioChunk := true;
      posted := [];
      readLog := [];
    }

    /** One invocation of the callback on `audioChunk`. Every slot is written:
        the decoded frames of the bytes read, then silence. The flag drops on the
        first non-empty read and never rises again, and does not affect the
        samples. A request is posted exactly when the read was empty, each time
        it is. `readBytes` is returned only to state the contract. */
    method Fill(audioChunk: array<real>) returns (readBytes: nat)
      requires Valid()
      modifies this, stream, audioChunk
      ensures Valid()
      ensures readBytes == ReadSize(old(stream.blocks), 2 * audioChunk.Length)
      ensures readBytes <= 2 * audioChunk.Length
      ensures stream.blocks == Consume(old(stream.blocks), readBytes)
      ensures readBytes <= |old(stream.Remaining())|
      ensures readBytes == 0 <==> old(stream.blocks) == [] || audioChunk.Length == 0
      ensures stream.Remaining() == old(stream.Remaining())[readBytes..]
      ensures audioChunk[..] == Decode(old(stream.Remaining())[..readBytes], audioChunk.Length)
      ensures isFirstAudioChunk == (old(isFirstAudioChunk) && readBytes == 0)
      ensures posted == old(posted) + (if readBytes == 0 then [ClearClipAndStop] else [])
      ensures readLog == old(readLog) + [readBytes]
    {
      ghost var remaining := stream.Remaining();
      var chunkSize := audioChunk.Length;
      var audioChunkBytes := new byte[chunkSize * 2];
      readBytes := stream.ReadData(audioChunkBytes);
      ghost var pulled := audioChunkBytes[..readBytes];
      ghost var left := stream.Remaining();
      assert pulled == remaining[..readBytes] && left == remaining[readBytes..];
      if isFirstAudioChunk && readBytes > 0 {
        isFirstAudioChunk := false;
      }

      WriteSamples(audioChunk, audioChunkBytes, readBytes);
      assert audioChunk[..] == Decode(pulled, chunkSize);

      if readBytes == 0 {
        posted := posted + [ClearClipAndStop];
      }
      ConsistentStep(old(isFirstAudioChunk), |old(posted)|, readLog, readBytes);
      readLog := readLog + [readBytes];
      assert stream.Remaining() == left;
      assert stream.Valid() && Consistent(isFirstAudioChunk, |posted|, readLog);
    }
  }

  /** A stream of three 100-byte blocks read through 200-sample chunks: three
      short reads that post nothing, then an empty read that posts the stop
      request. */
  method ThreeShortReadsThenEnd(b1: seq<byte>, b2: seq<byte>, b3: seq<byte>)
    requires |b1| == |b2| == |b3| == 100
  {
    var stream := new AudioDataStream([b1, b2, b3]);
    var reader := new StreamingClipReader(stream);
    var chunk := new real[200];
    var n := reader.Fill(chunk);
    assert n == 100 && stream.blocks == [b2, b3];
    assert !reader.isFirstAudioChunk && reader.posted == [];
    assert chunk[0] * FullScale == ToInt16(b1[0], b1[1]) as real && chunk[50] == 0.0;
    n := reader.Fill(chunk);
    assert n == 100 && stream.blocks == [b3] && reader.posted == [];
    n := reader.Fill(chunk);
    assert n == 100 && stream.blocks == [] && reader.posted == [];
    n := reader.Fill(chunk);
    assert n == 0 && reader.posted == [ClearClipAndStop];
  }

  /** Once the stream is drained every call reads it again, renders a silent
      chunk and posts another stop request: the callback has no once-only
      guard. */
  method DrainedStreamPostsEveryTime(reader: StreamingClipReader, chunk: array<real>)
    requires reader.Valid() && reader.stream.blocks == []
    modifies reader, reader.stream, chunk
  {
    var before := reader.posted;
    var n := reader.Fill(chunk);
    assert n == 0 && reader.stream.blocks == [];
    assert chunk[..] == Decode([], chunk.Length);
    n := reader.Fill(chunk);
    assert n == 0 && reader.posted == before + [ClearClipAndStop, ClearClipAndStop];
  }
}
