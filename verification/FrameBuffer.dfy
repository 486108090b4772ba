/** The profiler's frame buffer: three frames long, filled in place, and handed frame by frame to a streaming
    compressor that refers back to the bytes it was given before, at their old addresses. */
module FrameBuffers {

  type byte = x: int | 0 <= x < 256 witness 0

  const TARGET_FRAME_SIZE: nat := 256 * 1024

  /** How far back the compressor refers. */
  const WINDOW: nat := 64 * 1024

  function CompressBound(size: nat): nat { size + size / 255 + 16 }

  const LZ4_SIZE: nat := CompressBound(TARGET_FRAME_SIZE)

  /** A frame always fits the output buffer when compressed. */
  lemma FrameFits(size: nat)
    requires size <= TARGET_FRAME_SIZE
    ensures CompressBound(size) == size + size / 255 + 16 <= LZ4_SIZE == 263188
  {}

  /** The stream: all frames in order. */
  function Concat(frames: seq<seq<byte>>): seq<byte> {
    if frames == [] then [] else Concat(frames[..|frames| - 1]) + frames[|frames| - 1]
  }

  lemma ConcatAppend(frames: seq<seq<byte>>, frame: seq<byte>)
    ensures Concat(frames + [frame]) == Concat(frames) + frame
  {
    assert (frames + [frame])[..|frames|] == frames;
  }

  /** Bytes `at`, `at + 1`, ... */
  function Addresses(at: nat, len: nat): (r: seq<nat>)
    ensures |r| == len && forall k :: 0 <= k < len ==> r[k] == at + k
  {
    seq(len, k requires 0 <= k < len => at + k)
  }

  /** The buffer, the stream sent so far, where each of its bytes was when the compressor got it, and the end of
      the last lap through the buffer, 0 on the first. */
  datatype State = State(size: nat, buffer: seq<byte>, offset: nat, start: nat, sent: seq<byte>, address: seq<nat>,
      lapEnd: nat)

  /** Byte `i` of the stream was at `i - shift`, and still is. */
  predicate Kept(s: State, i: int, shift: int) {
    HomeIs(s, i, shift) && s.buffer[i - shift] == s.sent[i]
  }

  predicate HomeIs(s: State, i: int, shift: int) {
    0 <= i < |s.sent| == |s.address| && 0 <= i - shift < |s.buffer| && s.address[i] == i - shift
  }

  /** The stream position of the first byte of this lap, and of the lap before. */
  function Base(s: State): int { |s.sent| - s.start }

  function LapBase(s: State): int { Base(s) - s.lapEnd }

  /** Byte `i` belongs to the lap before, and stands unless the frame has reached it. */
  predicate Older(s: State, i: int, shift: int) {
    HomeIs(s, i, shift) && (s.offset <= i - shift ==> Kept(s, i, shift))
  }

  /** The bytes sent in this lap stand before the frame; of the lap before, those behind the frame still stand. */
  ghost predicate Laps(s: State) {
    && |s.buffer| == 3 * s.size && |s.address| == |s.sent| && 0 < s.size
    && s.start <= s.offset <= s.start + s.size && s.start <= 2 * s.size && s.lapEnd <= |s.buffer|
    && (if s.lapEnd == 0 then Base(s) == 0 else s.lapEnd > 2 * s.size && s.lapEnd <= Base(s))
    && (forall i :: Base(s) <= i < |s.sent| ==> Kept(s, i, Base(s)))
    && (forall i :: LapBase(s) <= i < Base(s) ==> Older(s, i, LapBase(s)))
  }

  /** What the compressor assumes: the last 64 KB it was given are present, unmodified, at the same addresses. */
  ghost predicate Intact(s: State) {
    |s.address| == |s.sent| &&
    forall i :: 0 <= i < |s.sent| && |s.sent| - WINDOW <= i ==>
      s.address[i] < |s.buffer| && s.buffer[s.address[i]] == s.sent[i]
  }

  /** The frame being built never reaches the last 64 KB sent: they end either before the frame or in the
      previous lap, at least a frame behind its start. */
  lemma LapsIntact(s: State)
    requires Laps(s) && WINDOW <= s.size + 1
    ensures Intact(s)
  {
    forall i | 0 <= i < |s.sent| && |s.sent| - WINDOW <= i
      ensures s.address[i] < |s.buffer| && s.buffer[s.address[i]] == s.sent[i]
    {
      if i >= Base(s) {
        assert Kept(s, i, Base(s));
      } else {
        assert Older(s, i, LapBase(s));
      }
    }
  }

  /** Bytes are written behind the frame only. */
  lemma WriteKeeps(s: State, s': State)
    requires Laps(s) && s' == s.(buffer := s'.buffer, offset := s'.offset) && |s'.buffer| == |s.buffer|
    requires s.offset <= s'.offset <= s.start + s.size
    requires forall k :: 0 <= k < |s.buffer| && !(s.offset <= k < s'.offset) ==> s'.buffer[k] == s.buffer[k]
    ensures Laps(s')
  {
    forall i | Base(s) <= i < |s.sent| ensures Kept(s', i, Base(s')) {
      assert Kept(s, i, Base(s));
    }
    forall i | LapBase(s) <= i < Base(s) ensures Older(s', i, LapBase(s')) {
      assert Older(s, i, LapBase(s));
    }
  }

  /** The frame joins the stream where it stands. */
  function Joined(s: State): State
    requires s.start <= s.offset <= |s.buffer|
  {
    s.(sent := s.sent + s.buffer[s.start..s.offset], address := s.address + Addresses(s.start, s.offset - s.start),
       start := s.offset)
  }

  lemma JoinKeeps(s: State)
    requires Laps(s) && s.offset <= 2 * s.size
    ensures s.offset <= |s.buffer| && Laps(Joined(s))
  {
    JoinLaps(s);
  }

  lemma JoinLaps(s: State)
    requires Laps(s)
    ensures s.offset <= |s.buffer|
    ensures var s' := Joined(s);
      && Base(s') == Base(s) && (forall i :: Base(s) <= i < |s'.sent| ==> Kept(s', i, Base(s)))
      && LapBase(s') == LapBase(s) && (forall i :: LapBase(s) <= i < Base(s) ==> Older(s', i, LapBase(s)))
  {
    var s' := Joined(s);
    forall i | Base(s) <= i < |s'.sent| ensures Kept(s', i, Base(s)) {
      if i < |s.sent| {
        assert Kept(s, i, Base(s));
      } else {
        assert s'.address[i] == Addresses(s.start, s.offset - s.start)[i - |s.sent|];
      }
    }
    forall i | LapBase(s) <= i < Base(s) ensures Older(s', i, LapBase(s)) {
      assert Older(s, i, LapBase(s));
    }
  }

  /** A new lap begins: what was this lap becomes the lap before. */
  lemma WrapKeeps(s: State)
    requires Laps(s) && s.offset > 2 * s.size
    ensures s.offset <= |s.buffer| && Laps(Joined(s).(offset := 0, start := 0, lapEnd := s.offset))
  {
    JoinLaps(s);
    var j := Joined(s);
    var s' := j.(offset := 0, start := 0, lapEnd := s.offset);
    forall i | LapBase(s') <= i < Base(s') ensures Older(s', i, LapBase(s')) {
      assert Kept(j, i, Base(s));
    }
  }

  class Profiler {
    const frameSize: nat
    const buffer: array<byte>
    var bufferOffset: nat
    var bufferStart: nat
    ghost var appended: seq<byte>
    ghost var frames: seq<seq<byte>>
    ghost var address: seq<nat>
    ghost var lapEnd: nat

    ghost function Now(): State
      reads this, buffer
    {
      State(frameSize, buffer[..], bufferOffset, bufferStart, Concat(frames), address, lapEnd)
    }

    /** In bounds, and nothing lost: what was appended is what was sent and the frame being built. */
    ghost predicate Valid()
      reads this, buffer
    {
      && Laps(Now()) && bufferOffset <= buffer.Length
      && appended == Concat(frames) + buffer[bufferStart..bufferOffset]
      && forall f :: f in frames ==> |f| <= frameSize
    }

    constructor (frameSize: nat)
      requires 0 < frameSize
      ensures Valid() && this.frameSize == frameSize && appended == [] && frames == [] && fresh(buffer)
      ensures bufferOffset == bufferStart == lapEnd == 0
    {
      this.frameSize := frameSize;
      buffer := new byte[3 * frameSize];
      bufferOffset, bufferStart := 0, 0;
      appended, frames, address, lapEnd := [], [], [], 0;
    }

    /** The source region lies inside the buffer and the history is in place; `ok` is the socket's answer. */
    method SendData(start: nat, len: nat, ok: bool) returns (r: bool)
      requires start + len <= buffer.Length && Intact(Now())
      modifies this`frames, this`address
      ensures r == ok && frames == old(frames) + [buffer[start..start + len]]
      ensures address == old(address) + Addresses(start, len)
    {
      frames := frames + [buffer[start..start + len]];
      address := address + Addresses(start, len);
      r := ok;
    }

    /** Sends the frame; goes back to the beginning of the buffer when less than a frame is left. */
    method CommitData(ok: bool) returns (r: bool)
      requires Valid() && Intact(Now())
      modifies this
      ensures Valid() && r == ok && appended == old(appended) && bufferStart == bufferOffset
      ensures frames == old(frames) + [old(buffer[bufferStart..bufferOffset])] && Concat(frames) == appended
      ensures bufferOffset == if old(bufferOffset) > frameSize * 2 then 0 else old(bufferOffset)
      ensures lapEnd == if old(bufferOffset) > frameSize * 2 then old(bufferOffset) else old(lapEnd)
    {
      hide Laps, Intact, Concat, Addresses, Kept, HomeIs, Older;
      ghost var before := Now();
      FrameInBounds(before);
      ConcatAppend(frames, buffer[bufferStart..bufferOffset]);
      r := SendData(bufferStart, bufferOffset - bufferStart, ok);
      if bufferOffset > frameSize * 2 {
        WrapKeeps(before);
        lapEnd := bufferOffset;
        bufferOffset := 0;
      } else {
        JoinKeeps(before);
      }
      bufferStart := bufferOffset;
    }

    /** Commits the frame if `len` more bytes would make it longer than a frame. */
    method NeedDataSize(len: nat, ok: bool) returns (r: bool)
      requires Valid() && len <= frameSize && WINDOW <= frameSize + 1
      modifies this
      ensures Valid() && appended == old(appended) && bufferOffset - bufferStart + len <= frameSize
      ensures if old(bufferOffset) - old(bufferStart) + len > frameSize
              then r == ok && frames == old(frames) + [old(buffer[bufferStart..bufferOffset])] &&
                  old(bufferStart < bufferOffset)
              else r && frames == old(frames)
    {
      r := true;
      if bufferOffset - bufferStart + len > frameSize {
        LapsIntact(Now());
        r := CommitData(ok);
      }
    }

    /** Copies the bytes behind the frame; the caller has made room. */
    method AppendDataUnsafe(data: seq<byte>)
      requires Valid() && bufferOffset - bufferStart + |data| <= frameSize
      modifies this`bufferOffset, this`appended, buffer
      ensures Valid() && appended == old(appended) + data && bufferOffset == old(bufferOffset) + |data| <= buffer.Length
      ensures buffer[bufferStart..bufferOffset] == old(buffer[bufferStart..bufferOffset]) + data
      ensures forall k :: 0 <= k < buffer.Length && !(old(bufferOffset) <= k < bufferOffset) ==>
        buffer[k] == old(buffer[k])
    {
      hide Laps, Intact, Concat, Addresses, Kept, HomeIs, Older;
      FrameInBounds(Now());
      ghost var before := Now();
      Copy(bufferOffset, data);
      bufferOffset := bufferOffset + |data|;
      appended := appended + data;
      Overwritten(before.buffer, buffer[..], bufferStart, before.offset, data);
      WriteKeeps(before, Now());
    }

    /** `memcpy` into the buffer. */
    method Copy(at: nat, data: seq<byte>)
      requires at + |data| <= buffer.Length
      modifies buffer
      ensures buffer[..] == old(buffer[..])[..at] + data + old(buffer[..])[at + |data|..]
    {
      ghost var was := buffer[..];
      for k := 0 to |data|
        invariant buffer[..] == was[..at] + data[..k] + was[at + k..]
      {
        OneMoreByte(was, buffer[..], at, data, k);
        buffer[at + k] := data[k];
      }
    }

    /** Appending never leaves the buffer, and adds exactly the data to the stream. */
    method AppendData(data: seq<byte>, ok: bool) returns (r: bool)
      requires Valid() && |data| <= frameSize && WINDOW <= frameSize + 1
      modifies this, buffer
      ensures Valid() && Intact(Now()) && appended == old(appended) + data
      ensures if old(bufferOffset) - old(bufferStart) + |data| > frameSize
              then r == ok && frames == old(frames) + [old(buffer[bufferStart..bufferOffset])]
              else r && frames == old(frames)
    {
      hide Laps, Intact, Concat;
      r := NeedDataSize(|data|, ok);
      AppendDataUnsafe(data);
      LapsIntact(Now());
    }

    /** A new connection on demand: the compressor forgets its history, and the buffer starts over. */
    method Reset()
      requires Valid()
      modifies this
      ensures Valid() && appended == [] && frames == [] && bufferOffset == bufferStart == 0
    {
      bufferOffset, bufferStart := 0, 0;
      appended, frames, address, lapEnd := [], [], [], 0;
    }
  }

  lemma OneMoreByte(was: seq<byte>, now: seq<byte>, at: nat, data: seq<byte>, k: nat)
    requires k < |data| && at + |data| <= |was| && now == was[..at] + data[..k] + was[at + k..]
    ensures |now| == |was| && now[at + k := data[k]] == was[..at] + data[..k + 1] + was[at + k + 1..]
  {
    assert data[..k + 1] == data[..k] + [data[k]];
    assert was[at + k..] == [was[at + k]] + was[at + k + 1..];
  }

  lemma FrameInBounds(s: State)
    requires Laps(s)
    ensures s.start <= s.offset <= |s.buffer| && s.offset - s.start <= s.size && 0 < s.size
    ensures s.start + s.size <= |s.buffer|
  {}

  lemma Overwritten(b: seq<byte>, b': seq<byte>, start: nat, at: nat, data: seq<byte>)
    requires start <= at && at + |data| <= |b| && b' == b[..at] + data + b[at + |data|..]
    ensures |b'| == |b| && b'[start..at + |data|] == b[start..at] + data
    ensures forall k :: 0 <= k < |b| && !(at <= k < at + |data|) ==> b'[k] == b[k]
  {}

  lemma FirstLapIntact(s: State)
    requires Laps(s) && s.lapEnd == 0
    ensures Intact(s)
  {
    forall i | 0 <= i < |s.sent| ensures s.address[i] < |s.buffer| && s.buffer[s.address[i]] == s.sent[i] {
      assert Kept(s, i, Base(s));
    }
  }

  /** The profiler's own frames of 256 KB are long enough for a window of 64 KB. */
  lemma WindowFits()
    ensures TARGET_FRAME_SIZE == 262144 && WINDOW == 65536 && WINDOW <= TARGET_FRAME_SIZE + 1
  {}

  /** The condition on the frame length is exact: with shorter frames there is a run after which the history is
      not intact, even where two frames are as long as the window. */
  method ShortFramesLoseHistory(frameSize: nat) returns (p: Profiler)
    requires 0 < frameSize && frameSize + 1 < WINDOW
    ensures fresh(p) && p.Valid() && p.frameSize == frameSize && !Intact(p.Now())
  {
    hide Laps, Intact, Concat, Repeat;
    p := TwoFramesAndAByte(frameSize);
    p.AppendDataUnsafe(Repeat(1, frameSize));
    assert p.buffer[..frameSize] == Repeat(1, frameSize);
    OldestOverwritten(p.Now());
  }

  method TwoFramesAndAByte(frameSize: nat) returns (p: Profiler)
    requires 0 < frameSize
    ensures fresh(p) && fresh(p.buffer) && p.Valid() && p.frameSize == frameSize && p.bufferStart == p.bufferOffset == 0
    ensures p.lapEnd == 2 * frameSize + 1 && Concat(p.frames) == Repeat(0, frameSize) + Repeat(0, frameSize) + [0]
  {
    hide Laps, Repeat;
    p := new Profiler(frameSize);
    assert p.appended == Concat(p.frames) && [] + Repeat(0, frameSize) == Repeat(0, frameSize);
    hide Concat;
    AppendAndCommit(p, Repeat(0, frameSize));
    AppendAndCommit(p, Repeat(0, frameSize));
    AppendAndCommit(p, [0]);
  }

  function Repeat(x: byte, n: nat): (r: seq<byte>)
    ensures |r| == n && forall k :: 0 <= k < n ==> r[k] == x
  {
    seq(n, _ => x)
  }

  method AppendAndCommit(p: Profiler, data: seq<byte>)
    requires p.Valid() && p.bufferStart == p.bufferOffset <= 2 * p.frameSize && |data| <= p.frameSize
    requires p.lapEnd == 0 && p.appended == Concat(p.frames)
    modifies p, p.buffer
    ensures p.Valid() && p.appended == Concat(p.frames) == old(p.appended) + data && p.bufferStart == p.bufferOffset
    ensures if old(p.bufferOffset) + |data| > 2 * p.frameSize
            then p.bufferOffset == 0 && p.lapEnd == old(p.bufferOffset) + |data|
            else p.bufferOffset == old(p.bufferOffset) + |data| && p.lapEnd == 0
  {
    p.AppendDataUnsafe(data);
    FirstLapIntact(p.Now());
    var ok := p.CommitData(true);
  }

  lemma OldestOverwritten(s: State)
    requires Laps(s) && s.start == 0 && s.offset == s.size && s.size + 1 < WINDOW
    requires s.lapEnd == |s.sent| == 2 * s.size + 1
    requires s.sent == Repeat(0, s.size) + Repeat(0, s.size) + [0]
    requires s.size <= |s.buffer| && s.buffer[..s.size] == Repeat(1, s.size)
    ensures !Intact(s)
  {
    var i := if |s.sent| < WINDOW then 0 else |s.sent| - WINDOW;
    assert Older(s, i, LapBase(s));
    assert s.buffer[..s.size][i] == 1;
    assert s.address[i] == i && s.buffer[i] == 1 && s.sent[i] == 0;
  }
}
