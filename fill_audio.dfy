/** The audio callback fill_audio of SRBeep.cpp: it drains the chunks held in
    the ring buffer into the output stream the audio device asks it to fill. */
module Mixer {
  import opened Wrappers
  import opened RingBuffers
  import opened AudioChunks

  /** The chunks left after the callback asked for `k` bytes: every chunk read
      to its end is popped, and a front chunk read only in part keeps its
      advanced offset. */
  function Consume(cs: seq<AudioData>, k: nat): (r: seq<AudioData>)
    requires AllWellFormed(cs)
    ensures AllWellFormed(r) && |r| <= |cs|
    decreases |cs|
  {
    if cs == [] || k == 0 then cs
    else
      var c := cs[0];
      var m := Min(k, c.audioLen - c.audioOffset);
      if c.audioOffset + m == c.audioLen then Consume(cs[1..], k - m)
      else [c.(audioOffset := c.audioOffset + m)] + cs[1..]
  }

  /** Asking for `k` bytes consumes exactly the first min(k, available) unread
      bytes, in FIFO order. */
  lemma {:induction false} ConsumeUnread(cs: seq<AudioData>, k: nat)
    requires AllWellFormed(cs)
    ensures Unread(Consume(cs, k)) == Unread(cs)[Min(k, |Unread(cs)|)..]
    decreases |cs|
  {
    if cs != [] && k != 0 {
      var c := cs[0];
      var m := Min(k, c.audioLen - c.audioOffset);
      assert Unread(cs) == Pending(c) + Unread(cs[1..]);
      if c.audioOffset + m == c.audioLen {
        ConsumeUnread(cs[1..], k - m);
        DropPrefix(Pending(c), Unread(cs[1..]), k);
      } else {
        AdvanceFront(cs, m);
      }
    }
  }

  /** Dropping `k` bytes from `p + rest`, where `p` has at most `k`, drops
      all of `p` and `k - |p|` bytes of `rest`. */
  lemma DropPrefix(p: seq<byte>, rest: seq<byte>, k: nat)
    requires |p| <= k
    ensures (p + rest)[Min(k, |p + rest|)..] == rest[Min(k - |p|, |rest|)..]
  {
    assert (p + rest)[|p|..] == rest;
  }

  /** Either all `k` requested bytes were available, or every chunk is gone. */
  lemma {:induction false} ConsumeExhausts(cs: seq<AudioData>, k: nat)
    requires AllWellFormed(cs)
    ensures k <= |Unread(cs)| || Consume(cs, k) == []
    decreases |cs|
  {
    if cs != [] && k != 0 {
      var c := cs[0];
      var m := Min(k, c.audioLen - c.audioOffset);
      if c.audioOffset + m == c.audioLen {
        ConsumeExhausts(cs[1..], k - m);
      }
    }
  }

  /** Consumption only pops chunks from the front; the first survivor is either
      untouched or the same chunk with a larger offset that is still short of
      its length, and the chunks behind it are untouched. */
  lemma {:induction false} ConsumeShape(cs: seq<AudioData>, k: nat)
    requires AllWellFormed(cs)
    ensures var r := Consume(cs, k); var j := |cs| - |r|;
      r != [] ==>
        && r[1..] == cs[j + 1..]
        && r[0].audioChunk == cs[j].audioChunk
        && r[0].audioLen == cs[j].audioLen
        && cs[j].audioOffset <= r[0].audioOffset
        && (r[0] == cs[j] || r[0].audioOffset < r[0].audioLen)
    decreases |cs|
  {
    if cs != [] && k != 0 {
      var c := cs[0];
      var m := Min(k, c.audioLen - c.audioOffset);
      if c.audioOffset + m == c.audioLen {
        ConsumeShape(cs[1..], k - m);
        var r := Consume(cs, k);
        if r != [] {
          assert cs[1..][|cs[1..]| - |r| + 1..] == cs[|cs| - |r| + 1..];
        }
      }
    }
  }

  /** The chunks after one round: the front chunk advanced by `m`, and popped
      when that read it to its end. */
  function AfterRound(cs: seq<AudioData>, m: nat): (d: seq<AudioData>)
    requires AllWellFormed(cs) && cs != [] && cs[0].audioOffset + m <= cs[0].audioLen
    ensures AllWellFormed(d)
  {
    AdvanceFront(cs, m);
    if cs[0].audioOffset + m == cs[0].audioLen then cs[1..]
    else [cs[0].(audioOffset := cs[0].audioOffset + m)] + cs[1..]
  }

  /** The state of the callback's loop after `offset` bytes went out and
      `remaining` are still wanted: `cur` is what the buffer holds and `out`
      the output stream. */
  ghost predicate Draining(chunks: seq<AudioData>, len: nat, cur: seq<AudioData>, remaining: nat, offset: nat, out: seq<byte>)
  {
    && AllWellFormed(chunks) && AllWellFormed(cur) && len <= |out|
    && offset + remaining == len && offset <= |Unread(chunks)|
    && Consume(cur, remaining) == Consume(chunks, len)
    && out[..offset] == Unread(chunks)[..offset]
    && Unread(cur) == Unread(chunks)[offset..]
    && (forall k :: offset <= k < len ==> out[k] == 0)
  }

  /** One round of the callback's loop leaves the rest of the request to
      consume exactly what the whole request would have. */
  lemma RoundConsume(cur: seq<AudioData>, remaining: nat, m: nat)
    requires AllWellFormed(cur) && cur != [] && 0 < remaining
    requires m == Min(remaining, cur[0].audioLen - cur[0].audioOffset)
    ensures Consume(AfterRound(cur, m), remaining - m) == Consume(cur, remaining)
  {
    var c := cur[0];
    if c.audioOffset + m == c.audioLen {
      assert AfterRound(cur, m) == cur[1..];
    } else {
      var d := [c.(audioOffset := c.audioOffset + m)] + cur[1..];
      assert AfterRound(cur, m) == d && remaining - m == 0;
      assert Consume(cur, remaining) == d;
    }
  }

  /** After one round the held chunks still hold the unread tail, `m` bytes
      further on. */
  lemma RoundUnread(cur: seq<AudioData>, m: nat)
    requires AllWellFormed(cur) && cur != [] && cur[0].audioOffset + m <= cur[0].audioLen
    ensures m <= |Unread(cur)|
    ensures Unread(AfterRound(cur, m)) == Unread(cur)[m..]
    ensures Unread(cur)[..m] == Pending(cur[0])[..m]
  {
    var c := cur[0];
    var d := [c.(audioOffset := c.audioOffset + m)] + cur[1..];
    assert Unread(cur) == Pending(c) + Unread(cur[1..]);
    AdvanceFront(cur, m);
    if c.audioOffset + m == c.audioLen {
      assert AfterRound(cur, m) == d[1..];
      assert Unread(d) == Pending(d[0]) + Unread(d[1..]);
    }
  }

  /** Copying the next `m` unread bytes extends the written prefix and keeps
      the silence after it. */
  lemma RoundOutput(unread: seq<byte>, len: nat, offset: nat, out: seq<byte>, piece: seq<byte>, out': seq<byte>)
    requires len <= |out| && offset + |piece| <= len && offset + |piece| <= |unread|
    requires out[..offset] == unread[..offset]
    requires unread[offset..][..|piece|] == piece
    requires forall k :: offset <= k < len ==> out[k] == 0
    requires out' == out[..offset] + piece + out[offset + |piece|..]
    ensures out'[..offset + |piece|] == unread[..offset + |piece|]
    ensures forall k :: offset + |piece| <= k < len ==> out'[k] == 0
    ensures |out'| == |out| && out'[len..] == out[len..]
  {
    assert unread[..offset + |piece|] == unread[..offset] + unread[offset..][..|piece|];
    forall k | offset + |piece| <= k < len ensures out'[k] == 0 {
      assert out'[k] == out[k];
    }
  }

  /** One round keeps the loop's invariant. */
  lemma RoundKeepsInvariant(chunks: seq<AudioData>, len: nat, cur: seq<AudioData>, remaining: nat, offset: nat,
                            out: seq<byte>, m: nat,
                            cur': seq<AudioData>, remaining': nat, offset': nat, out': seq<byte>)
    requires Draining(chunks, len, cur, remaining, offset, out)
    requires cur != [] && 0 < remaining
    requires m == Min(remaining, cur[0].audioLen - cur[0].audioOffset)
    requires cur' == AfterRound(cur, m) && remaining' == remaining - m && offset' == offset + m
    requires out' == out[..offset] + Pending(cur[0])[..m] + out[offset + m..]
    ensures Draining(chunks, len, cur', remaining', offset', out')
    ensures out'[len..] == out[len..]
  {
    var unread := Unread(chunks);
    RoundConsume(cur, remaining, m);
    RoundUnread(cur, m);
    assert unread[offset..][m..] == unread[offset'..];
    RoundOutput(unread, len, offset, out, Pending(cur[0])[..m], out');
  }

  /** What one callback for `len` bytes leaves behind when the buffer held
      `before`: the buffer holds `after`, every chunk read to its end is gone,
      and the first `len` bytes of `out` are the first unread bytes of
      `before` in FIFO order, followed by silence once those run out. */
  ghost predicate Filled(before: seq<AudioData>, len: nat, after: seq<AudioData>, out: seq<byte>)
  {
    && AllWellFormed(before) && AllWellFormed(after) && len <= |out|
    && after == Consume(before, len)
    && var n := Min(len, |Unread(before)|);
       && out[..n] == Unread(before)[..n]
       && (forall k :: n <= k < len ==> out[k] == 0)
       && Unread(after) == Unread(before)[n..]
       && (n == len || after == [])
  }

  /** What the loop's invariant and its exit condition give the caller. */
  lemma FillOutcome(chunks: seq<AudioData>, len: nat, cur: seq<AudioData>, remaining: nat, offset: nat, out: seq<byte>)
    requires Draining(chunks, len, cur, remaining, offset, out)
    requires remaining == 0 || cur == []
    ensures Filled(chunks, len, cur, out)
  {
    ConsumeUnread(chunks, len);
    ConsumeExhausts(chunks, len);
  }

  /** SDL_MixAudio at full volume into a destination that is still silent,
      which is a copy of `src` to `stream[streamOffset..]`. */
  method MixAudio(stream: array<byte>, streamOffset: nat, src: seq<byte>)
    requires streamOffset + |src| <= stream.Length
    requires forall k :: streamOffset <= k < streamOffset + |src| ==> stream[k] == 0
    modifies stream
    ensures stream[..] == old(stream[..streamOffset]) + src + old(stream[streamOffset + |src|..])
  {
    forall k | 0 <= k < |src| {
      stream[streamOffset + k] := src[k];
    }
  }

  /** The block of the callback's loop that holds the buffer's lock: read the
      front chunk, mix what the request still needs of it and advance its
      offset in place. `found` is false when the front is the null pointer. */
  method MixLockedTop(buffers: RingBuffer<AudioData>, stream: array<byte>, streamOffset: nat, len: nat)
    returns (found: bool, mixSize: nat, emptied: bool)
    requires buffers.Valid() && AllWellFormed(buffers.Contents())
    requires streamOffset + len <= stream.Length
    requires forall k :: streamOffset <= k < streamOffset + len ==> stream[k] == 0
    modifies buffers.data, stream
    ensures buffers.Valid()
    ensures found <==> old(buffers.Contents()) != []
    ensures !found ==> buffers.Contents() == old(buffers.Contents()) && stream[..] == old(stream[..])
    ensures found ==>
      var c := old(buffers.Contents())[0];
      && mixSize == Min(len, c.audioLen - c.audioOffset)
      && emptied == (c.audioOffset + mixSize == c.audioLen)
      && buffers.Contents() == [c.(audioOffset := c.audioOffset + mixSize)] + old(buffers.Contents())[1..]
      && stream[..] == old(stream[..streamOffset]) + Pending(c)[..mixSize] + old(stream[streamOffset + mixSize..])
  {
    var top := buffers.Top();
    if top.None? {
      return false, 0, false;
    }
    ghost var before := buffers.Contents();
    var adata := top.value;
    assert WellFormed(adata);
    var containedSize := adata.audioLen - adata.audioOffset;
    mixSize := if len > containedSize then containedSize else len;
    ghost var piece := Pending(adata)[..mixSize];
    assert piece == adata.audioChunk[adata.audioOffset..adata.audioOffset + mixSize];
    MixAudio(stream, streamOffset, adata.audioChunk[adata.audioOffset..adata.audioOffset + mixSize]);
    ghost var mixed := stream[..];
    assert buffers.Contents() == before;
    buffers.WriteTop(adata.(audioOffset := adata.audioOffset + mixSize));
    assert stream[..] == mixed;
    assert buffers.Contents() == [adata.(audioOffset := adata.audioOffset + mixSize)] + before[1..];
    found := true;
    emptied := adata.audioOffset + mixSize == adata.audioLen;
  }

  /** One round of the callback's loop: mix from the front chunk under the lock,
      then pop the chunk if that read it to its end. */
  method MixRound(buffers: RingBuffer<AudioData>, stream: array<byte>, streamOffset: nat, len: nat)
    returns (found: bool, mixSize: nat)
    requires buffers.Valid() && AllWellFormed(buffers.Contents())
    requires streamOffset + len <= stream.Length
    requires forall k :: streamOffset <= k < streamOffset + len ==> stream[k] == 0
    modifies buffers, buffers.data, stream
    ensures buffers.Valid()
    ensures found <==> old(buffers.Contents()) != []
    ensures !found ==> buffers.Contents() == old(buffers.Contents()) && stream[..] == old(stream[..])
    ensures found ==>
      var c := old(buffers.Contents())[0];
      && mixSize == Min(len, c.audioLen - c.audioOffset)
      && buffers.Contents() == AfterRound(old(buffers.Contents()), mixSize)
      && stream[..] == old(stream[..streamOffset]) + Pending(c)[..mixSize] + old(stream[streamOffset + mixSize..])
  {
    var emptied;
    found, mixSize, emptied := MixLockedTop(buffers, stream, streamOffset, len);
    if found && emptied {
      var _ := buffers.Pop(false);
    }
  }

  /** The audio callback: `stream` receives `len` bytes, the unread bytes of the
      held chunks in FIFO order followed by silence. */
  method FillAudio(buffers: RingBuffer<AudioData>, stream: array<byte>, len: int)
    requires buffers.Valid() && AllWellFormed(buffers.Contents())
    requires 0 <= len <= stream.Length
    modifies buffers, buffers.data, stream
    ensures buffers.Valid()
    ensures Filled(old(buffers.Contents()), len, buffers.Contents(), stream[..])
    ensures stream[len..] == old(stream[len..])
  {
    // SDL_memset(stream, 0, len)
    forall k | 0 <= k < len {
      stream[k] := 0;
    }
    ghost var chunks := buffers.Contents();
    ghost var cur := chunks;
    ghost var out := stream[..];
    var remaining := len;
    var streamOffset := 0;
    while remaining > 0
      invariant buffers.Valid() && buffers.Contents() == cur && stream[..] == out
      invariant 0 <= remaining
      invariant Draining(chunks, len, cur, remaining, streamOffset, out)
      invariant out[len..] == old(stream[len..])
      decreases remaining, |cur|
    {
      ghost var cur0, remaining0, streamOffset0, out0 := cur, remaining, streamOffset, out;
      var found, mixSize := MixRound(buffers, stream, streamOffset, remaining);
      if !found {
        break;
      }
      streamOffset := streamOffset + mixSize;
      remaining := remaining - mixSize;
      cur, out := AfterRound(cur, mixSize), stream[..];
      RoundKeepsInvariant(chunks, len, cur0, remaining0, streamOffset0, out0, mixSize, cur, remaining, streamOffset, out);
      if buffers.IsEmpty() {
        break;
      }
    }
    FillOutcome(chunks, len, cur, remaining, streamOffset, out);
  }
}
