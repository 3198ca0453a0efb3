/** The synthesis result's audio data stream, as the clip reader sees it:
    `ReadData` copies at most a buffer's worth of the audio still pending and
    returns how many bytes it copied, 0 meaning end of stream. */
module AudioStream {
  import opened Pcm

  /** The bytes of consecutive blocks, in order. */
  function Flatten(blocks: seq<seq<byte>>): (bytes: seq<byte>)
  {
    if blocks == [] then [] else blocks[0] + Flatten(blocks[1..])
  }

  /** How many bytes one read into a buffer of `capacity` bytes returns: the
      rest of the front block, or as much of it as fits. */
  function ReadSize(blocks: seq<seq<byte>>, capacity: nat): (n: nat)
    ensures n <= capacity
    ensures blocks != [] ==> n <= |blocks[0]|
  {
    if blocks == [] then 0
    else if |blocks[0]| < capacity then |blocks[0]| else capacity
  }

  /** The blocks left once `n` bytes of the front block have been read. */
  function Consume(blocks: seq<seq<byte>>, n: nat): seq<seq<byte>>
    requires blocks != [] ==> n <= |blocks[0]|
  {
    if blocks == [] || n == 0 then blocks
    else if n == |blocks[0]| then blocks[1..]
    else [blocks[0][n..]] + blocks[1..]
  }

  /** Taking `n` bytes off the front block takes them off the whole stream. */
  lemma FlattenDrop(blocks: seq<seq<byte>>, n: nat)
    requires blocks != [] && n <= |blocks[0]|
    ensures Flatten(Consume(blocks, n)) == Flatten(blocks)[n..]
  {
    var rest := blocks[1..];
    if 0 < n < |blocks[0]| {
      assert ([blocks[0][n..]] + rest)[1..] == rest;
    }
    assert (blocks[0] + Flatten(rest))[n..] == blocks[0][n..] + Flatten(rest);
  }

  class AudioDataStream {
    /** The audio still to be read, in the blocks in which the synthesis
        backend makes it available; a read never crosses a block boundary, so a
        block shorter than the reader's buffer yields a short read. */
    var blocks: seq<seq<byte>>

    /** No block is empty: only a drained stream reads 0 bytes. */
    ghost predicate Valid()
      reads this
    {
      forall i :: 0 <= i < |blocks| ==> blocks[i] != []
    }

    /** All the bytes still to be read. */
    function Remaining(): seq<byte>
      reads this
    {
      Flatten(blocks)
    }

    constructor (blocks: seq<seq<byte>>)
      requires forall i :: 0 <= i < |blocks| ==> blocks[i] != []
      ensures Valid() && this.blocks == blocks
    {
      this.blocks := blocks;
    }

    /** `ReadData(buffer)`: copies the next bytes of the stream into the front
        of `buffer`, never more than `buffer.Length`, and returns their number.
        It returns 0 only when the stream is drained (or the buffer is empty);
        a drained stream is left as it is, so it reads 0 again and again. */
    method ReadData(buffer: array<byte>) returns (n: nat)
      requires Valid()
      modifies this, buffer
      ensures Valid()
      ensures n == ReadSize(old(blocks), buffer.Length)
      ensures blocks == Consume(old(blocks), n)
      ensures n <= |old(Remaining())|
      ensures n == 0 <==> old(blocks) == [] || buffer.Length == 0
      ensures buffer[..n] == old(Remaining())[..n]
      ensures buffer[n..] == old(buffer[n..])
      ensures Remaining() == old(Remaining())[n..]
    {
      if blocks == [] || buffer.Length == 0 {
        return 0;
      }
      var front := blocks[0];
      n := if |front| < buffer.Length then |front| else buffer.Length;
      forall i | 0 <= i < n {
        buffer[i] := front[i];
      }
      FlattenDrop(blocks, n);
      assert Remaining()[..n] == front[..n];
      blocks := Consume(blocks, n);
    }
  }
}
