/** The AudioData chunk of SRBeep.cpp, in its only instantiation
    AudioData<1024>, and the bytes a sequence of chunks still holds. */
module AudioChunks {

  /** An unsigned char / Uint8. */
  newtype byte = x: int | 0 <= x < 256

  /** The template argument of AudioData in RingBufferT, which audio_capacity()
      returns. */
  const ChunkCapacity: nat := 1024

  function Min(a: int, b: int): int
  {
    if a < b then a else b
  }

  /** `audioChunk` is the fixed array, `audioLen` the number of valid bytes at
      its start, `audioOffset` the number of those already consumed. */
  datatype AudioData = AudioData(audioChunk: seq<byte>, audioLen: nat, audioOffset: nat)

  /** A chunk as the producer builds it and the consumer keeps it. */
  predicate WellFormed(c: AudioData)
  {
    |c.audioChunk| == ChunkCapacity && c.audioOffset <= c.audioLen <= ChunkCapacity
  }

  predicate AllWellFormed(cs: seq<AudioData>)
  {
    forall i :: 0 <= i < |cs| ==> WellFormed(cs[i])
  }

  /** The valid bytes of a chunk that the consumer has not read yet. */
  function Pending(c: AudioData): (p: seq<byte>)
    requires WellFormed(c)
    ensures |p| == c.audioLen - c.audioOffset
  {
    c.audioChunk[c.audioOffset..c.audioLen]
  }

  /** The unread bytes of a sequence of chunks, oldest chunk first. */
  function Unread(cs: seq<AudioData>): seq<byte>
    requires AllWellFormed(cs)
  {
    if cs == [] then [] else Pending(cs[0]) + Unread(cs[1..])
  }

  /** Unread bytes of a chunk put in front of others. */
  lemma UnreadCons(c: AudioData, rest: seq<AudioData>)
    requires WellFormed(c) && AllWellFormed(rest)
    ensures AllWellFormed([c] + rest)
    ensures Unread([c] + rest) == Pending(c) + Unread(rest)
  {
    assert ([c] + rest)[1..] == rest;
  }

  /** Advancing a chunk's offset by `m` drops its first `m` unread bytes,
      whatever follows it. */
  lemma AdvanceChunk(c: AudioData, rest: seq<AudioData>, m: nat)
    requires WellFormed(c) && AllWellFormed(rest) && c.audioOffset + m <= c.audioLen
    ensures AllWellFormed([c.(audioOffset := c.audioOffset + m)] + rest)
    ensures Unread([c.(audioOffset := c.audioOffset + m)] + rest) == (Pending(c) + Unread(rest))[m..]
  {
    var d := c.(audioOffset := c.audioOffset + m);
    UnreadCons(d, rest);
    assert Pending(d) == Pending(c)[m..];
  }

  /** Advancing the front chunk's offset by `m` drops the first `m` unread bytes. */
  lemma AdvanceFront(cs: seq<AudioData>, m: nat)
    requires AllWellFormed(cs) && cs != []
    requires cs[0].audioOffset + m <= cs[0].audioLen
    ensures AllWellFormed([cs[0].(audioOffset := cs[0].audioOffset + m)] + cs[1..])
    ensures Unread([cs[0].(audioOffset := cs[0].audioOffset + m)] + cs[1..]) == Unread(cs)[m..]
  {
    AdvanceChunk(cs[0], cs[1..], m);
  }
}
