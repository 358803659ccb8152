/** The producer side of play_clip in SRBeep.cpp: the converted sample count
    becomes a byte count, and the converted bytes are cut into AudioData
    chunks for the ring buffer. */
module Slicing {
  import opened AudioChunks
  import opened Mixer

  /** MAX_AUDIO_FRAME_SIZE. */
  const MaxAudioFrameSize: nat := 192000

  /** out_buffer_capacity: the bytes reserved for the converted audio. */
  const OutBufferCapacity: nat := MaxAudioFrameSize * 2

  /** The converter's output layout: two channels of AV_SAMPLE_FMT_S16. */
  const OutChannels: nat := 2
  const BytesPerSample: nat := 2

  /** The `out_buffer_size *= 2 + 2` step. A positive result of swr_convert
      is a per-channel sample count and becomes a byte count; a zero or
      negative result is kept, and then no chunk is produced. */
  function ConvertedByteCount(samples: int): (bytes: int)
    ensures 0 < bytes <==> 0 < samples
    ensures 0 < samples ==> bytes == samples * OutChannels * BytesPerSample
    ensures samples <= 0 ==> bytes == samples
  {
    if samples > 0 then samples * (2 + 2) else samples
  }

  /** A chunk as the slicing loop fills it: offset 0, `piece` at the start of
      the array. The bytes after `audioLen` are left unspecified by the
      source; here they are zero. */
  function NewChunk(piece: seq<byte>): (c: AudioData)
    requires 0 < |piece| <= ChunkCapacity
    ensures WellFormed(c) && c.audioOffset == 0 && c.audioLen == |piece|
    ensures Pending(c) == piece
  {
    var chunk := piece + seq(ChunkCapacity - |piece|, _ => 0 as byte);
    assert chunk[..|piece|] == piece;
    AudioData(chunk, |piece|, 0)
  }

  /** The chunks the slicing loop pushes for `bytes`, in push order: full
      chunks of ChunkCapacity bytes and one shorter last chunk. */
  function Slices(bytes: seq<byte>): (cs: seq<AudioData>)
    ensures AllWellFormed(cs)
    decreases |bytes|
  {
    if bytes == [] then []
    else
      var n := Min(|bytes|, ChunkCapacity);
      [NewChunk(bytes[..n])] + Slices(bytes[n..])
  }

  /** Every chunk starts unread at offset 0 and holds between 1 and
      ChunkCapacity bytes; every chunk but the last is full. */
  lemma {:induction false} SlicesShape(bytes: seq<byte>)
    ensures var cs := Slices(bytes);
      && (forall i :: 0 <= i < |cs| ==> cs[i].audioOffset == 0 && 0 < cs[i].audioLen <= ChunkCapacity)
      && (forall i :: 0 <= i < |cs| - 1 ==> cs[i].audioLen == ChunkCapacity)
    decreases |bytes|
  {
    if bytes != [] {
      var n := Min(|bytes|, ChunkCapacity);
      SlicesShape(bytes[n..]);
      var cs := Slices(bytes);
      assert cs[1..] == Slices(bytes[n..]);
      if n < ChunkCapacity {
        assert bytes[n..] == [];
      }
    }
  }

  /** The slicing loop pushes one chunk per started kilobyte. */
  lemma {:induction false} SlicesCount(bytes: seq<byte>)
    ensures |Slices(bytes)| == (|bytes| + ChunkCapacity - 1) / ChunkCapacity
    decreases |bytes|
  {
    if bytes != [] {
      var n := Min(|bytes|, ChunkCapacity);
      SlicesCount(bytes[n..]);
      if n == ChunkCapacity {
        assert |bytes| + ChunkCapacity - 1 == (|bytes[n..]| + ChunkCapacity - 1) + ChunkCapacity;
      }
    }
  }

  /** Slicing loses, duplicates and reorders nothing: the unread bytes of the
      chunks are exactly the sliced bytes. */
  lemma {:induction false} SlicesUnread(bytes: seq<byte>)
    ensures Unread(Slices(bytes)) == bytes
    decreases |bytes|
  {
    if bytes != [] {
      var n := Min(|bytes|, ChunkCapacity);
      SlicesUnread(bytes[n..]);
      UnreadCons(NewChunk(bytes[..n]), Slices(bytes[n..]));
      assert bytes == bytes[..n] + bytes[n..];
    }
  }

  /** Chunks pushed by the producer and drained by callbacks come out in the
      order they went in: a request for `k` bytes leaves the bytes after the
      first `k`. */
  lemma SlicedThenDrained(bytes: seq<byte>, k: nat)
    ensures Unread(Consume(Slices(bytes), k)) == bytes[Min(k, |bytes|)..]
  {
    SlicesUnread(bytes);
    ConsumeUnread(Slices(bytes), k);
  }

  /** One round of the slicing loop keeps its invariant: the chunks pushed
      so far followed by the slices of the rest are the slices of it all. */
  lemma SliceRound(a: seq<byte>, n: nat, chunks: seq<AudioData>, offset: nat, len: nat)
    requires n <= |a| && offset < n && len == Min(n - offset, ChunkCapacity)
    requires chunks + Slices(a[..n][offset..]) == Slices(a[..n])
    ensures chunks + [NewChunk(a[offset..offset + len])] + Slices(a[..n][offset + len..]) == Slices(a[..n])
  {
    var bytes := a[..n];
    var rest := Slices(bytes[offset + len..]);
    assert bytes[offset..][..len] == a[offset..offset + len];
    assert bytes[offset..][len..] == bytes[offset + len..];
    assert Slices(bytes[offset..]) == [NewChunk(a[offset..offset + len])] + rest;
    assert chunks + [NewChunk(a[offset..offset + len])] + rest == chunks + ([NewChunk(a[offset..offset + len])] + rest);
  }

  /** The slicing loop over `out_buffer[0..out_buffer_size)`, with each pushed
      chunk appended to `chunks` in place of the push-and-retry loop. */
  method SliceOutBuffer(outBuffer: array<byte>, outBufferSize: int) returns (chunks: seq<AudioData>)
    requires outBufferSize <= outBuffer.Length
    ensures chunks == Slices(outBuffer[..if outBufferSize > 0 then outBufferSize else 0])
  {
    ghost var n := if outBufferSize > 0 then outBufferSize else 0;
    chunks := [];
    var size := outBufferSize;
    var offset := 0;
    while size > 0
      invariant 0 <= offset <= n
      invariant offset + (if size > 0 then size else 0) == n
      invariant chunks + Slices(outBuffer[..][..n][offset..]) == Slices(outBuffer[..][..n])
      decreases size
    {
      var len := if size > ChunkCapacity then ChunkCapacity else size;
      SliceRound(outBuffer[..], n, chunks, offset, len);
      var data := NewChunk(outBuffer[offset..offset + len]);
      offset := offset + len;
      size := size - len;
      chunks := chunks + [data];
    }
    assert outBuffer[..][..n][offset..] == [];
    assert outBuffer[..][..n] == outBuffer[..n];
  }

  /** The out_count that play_clip passes to swr_convert, as written:
      `out_buffer_capacity / 2` samples per channel. */
  const SwrOutCountAsWritten: nat := OutBufferCapacity / 2

  /** Whether a conversion of `samples` per channel stays inside out_buffer. */
  predicate FitsOutBuffer(samples: int)
  {
    ConvertedByteCount(samples) <= OutBufferCapacity
  }

  /** A conversion that fills the out_count as written needs twice the buffer:
      192000 samples per channel are 768000 bytes against 384000. */
  lemma SwrOutCountAsWrittenOverflows()
    ensures 0 < SwrOutCountAsWritten
    ensures ConvertedByteCount(SwrOutCountAsWritten) == 2 * OutBufferCapacity
    ensures !FitsOutBuffer(SwrOutCountAsWritten)
  {
  }

  /** The out_count that keeps every conversion inside out_buffer: the
      capacity divided by the bytes of one sample on every channel. */
  const SwrOutCount: nat := OutBufferCapacity / (OutChannels * BytesPerSample)

  /** Every conversion the corrected out_count admits fits, and the corrected
      out_count is the largest that does. */
  lemma SwrOutCountFits(samples: int)
    ensures samples <= SwrOutCount ==> FitsOutBuffer(samples)
    ensures FitsOutBuffer(samples) ==> samples <= SwrOutCount
  {
  }

  /** One decoded frame's producer step: the converter's result becomes a
      byte count and the converted bytes are sliced into chunks. */
  method ProduceChunks(outBuffer: array<byte>, samples: int) returns (chunks: seq<AudioData>)
    requires outBuffer.Length == OutBufferCapacity
    requires samples <= SwrOutCount
    ensures samples <= 0 ==> chunks == []
    ensures 0 < samples ==> chunks == Slices(outBuffer[..samples * OutChannels * BytesPerSample])
    ensures 0 < samples ==> Unread(chunks) == outBuffer[..samples * OutChannels * BytesPerSample]
  {
    SwrOutCountFits(samples);
    var outBufferSize := ConvertedByteCount(samples);
    chunks := SliceOutBuffer(outBuffer, outBufferSize);
    if 0 < samples {
      SlicesUnread(outBuffer[..outBufferSize]);
    }
  }
}
