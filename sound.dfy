/** A decoded waveform (`Sound`) and a playback cursor over it (`PlaybackInfo`), with the
    two mixing routines: one-shot mixing that stops at the end of the samples, and looping
    mixing that wraps back to the start as often as the window needs. */
module Sounds {
  import opened Mixer

  /** What decoding a WAV file and converting it to the device format produced: the
      converted sample bytes, or the error message the conversion threw. */
  datatype Decoded = Decoded(samples: seq<uint8>) | DecodeError(message: string)

  /** A snapshot of a cursor's fields: the waveform it reads, its byte offset into it,
      whether its last mix produced audio, and whether it loops. */
  datatype CursorState = CursorState(sound: Sound, position: int, isPlaying: bool, loop: bool)

  /** The read position never leaves the waveform: `0 <= position <= mLength`. */
  predicate ValidState(st: CursorState)
  {
    0 <= st.position <= st.sound.Length()
  }

  /** The state of a cursor fresh from `getPlaybackInfo`. */
  function NewCursor(sound: Sound, loop: bool): CursorState
  {
    CursorState(sound, 0, false, loop)
  }

  /** The state `stop` leaves behind: fast-forwarded to the end, no longer looping. */
  function StopState(st: CursorState): CursorState
  {
    st.(loop := false, position := st.sound.Length())
  }

  /** The number of bytes one-shot mixing copies from `position` when the caller asks for
      `length`: all of them, or what remains of the waveform if that is less. */
  function MixLength(position: int, soundLength: int, length: int): (n: int)
    requires 0 <= position <= soundLength && 0 <= length
    ensures 0 <= n <= length && position + n <= soundLength
    ensures n == length || position + n == soundLength
  {
    if position + length >= soundLength then soundLength - position else length
  }

  /** One pass of the looping mixer's `for` body.
      `writeLength` is what that pass mixes and `next` is where the position goes. */
  datatype Segment = Segment(writeLength: int, next: int)

  /** One pass of the looping mixer asked for `wanted` more bytes at `position`: it mixes
      up to the end of the waveform and wraps to 0 exactly when that end is reached. */
  function LoopSegment(position: int, wanted: int, soundLength: int): (seg: Segment)
    requires 0 <= position <= soundLength && 0 <= wanted
    ensures 0 <= seg.writeLength <= wanted && position + seg.writeLength <= soundLength
    ensures seg.writeLength == wanted || position + seg.writeLength == soundLength
    ensures seg.next == if position + seg.writeLength == soundLength then 0 else position + seg.writeLength
  {
    if position + wanted >= soundLength then Segment(soundLength - position, 0)
    else Segment(wanted, position + wanted)
  }

  /** Where looping mixing of `length` bytes from `position` leaves the read position: the
      offset within the waveform of byte `position + length` of the endlessly repeated
      samples, or `position` itself when nothing was asked for. */
  function LoopEnd(position: int, length: int, soundLength: int): (r: int)
    requires 0 <= position <= soundLength && 0 < soundLength && 0 <= length
    ensures 0 <= r <= soundLength
    ensures length == 0 ==> r == position
    ensures length > 0 ==> r < soundLength
  {
    if length == 0 then position else (position + length) % soundLength
  }

  /** The new state of a cursor after one `play` call for a window of `length` bytes. */
  function PlayStep(st: CursorState, length: int): (r: CursorState)
    requires ValidState(st) && 0 <= length
    ensures ValidState(r) && r.sound == st.sound && r.loop == st.loop
    ensures st.loop ==> r.isPlaying
    ensures !st.loop ==> r.position == st.position + MixLength(st.position, st.sound.Length(), length)
    ensures !st.loop ==> (r.isPlaying <==> r.position < st.sound.Length())
  {
    var n := st.sound.Length();
    if st.loop then
      st.(isPlaying := true, position := if n > 0 then LoopEnd(st.position, length, n) else st.position)
    else
      var p := st.position + MixLength(st.position, n, length);
      st.(isPlaying := p < n, position := p)
  }

  /** Byte `k` of the endless repetition of `samples` that starts at offset `position`. */
  function LoopedSample(samples: seq<uint8>, position: int, k: int): uint8
    requires |samples| > 0 && 0 <= position && 0 <= k
  {
    samples[(position + k) % |samples|]
  }

  /** The waveform byte that one `play` call of a cursor in state `st` mixes into byte `k`
      of a `length`-byte window, if any. */
  function Contribution(st: CursorState, length: int, k: int): Option<uint8>
    requires ValidState(st) && 0 <= length && 0 <= k
  {
    var n := st.sound.Length();
    if st.loop then
      if n > 0 then Some(LoopedSample(st.sound.samples, st.position, k)) else None
    else if k < MixLength(st.position, n, length) then Some(st.sound.samples[st.position + k])
    else None
  }

  /** The state after `calls` consecutive `play` calls with the same window length. */
  function PlayRepeatedly(st: CursorState, length: int, calls: nat): (r: CursorState)
    requires ValidState(st) && 0 <= length
    ensures ValidState(r) && r.sound == st.sound && r.loop == st.loop
  {
    if calls == 0 then st else PlayStep(PlayRepeatedly(st, length, calls - 1), length)
  }

  function Min(a: int, b: int): int
  {
    if a <= b then a else b
  }

  /** A stopped cursor, played again, mixes nothing into any byte of the window and
      reports that it is no longer playing, whether it was looping or not. */
  lemma StopThenPlayIsSilent(st: CursorState, length: int, k: int)
    requires ValidState(st) && 0 <= length && 0 <= k
    ensures ValidState(StopState(st))
    ensures !PlayStep(StopState(st), length).isPlaying
    ensures PlayStep(StopState(st), length).position == st.sound.Length()
    ensures Contribution(StopState(st), length, k) == None
  {
  }

  /** A looping cursor never finishes on its own: every later `play` still reports it
      playing and keeps its loop flag. */
  lemma {:induction false} LoopingNeverFinishes(st: CursorState, length: int, calls: nat)
    requires ValidState(st) && 0 <= length && st.loop && calls > 0
    ensures PlayRepeatedly(st, length, calls).isPlaying
    ensures PlayRepeatedly(st, length, calls).loop
  {
    if calls > 1 {
      LoopingNeverFinishes(st, length, calls - 1);
    }
  }

  /** After `calls` one-shot `play` calls with window `length`, a fresh cursor has consumed
      `min(calls * length, mLength)` bytes, and it still reports playing exactly when that
      falls short of the waveform's length. */
  lemma {:induction false} OneShotRunPosition(sound: Sound, length: int, calls: nat)
    requires length > 0
    ensures PlayRepeatedly(NewCursor(sound, false), length, calls).position == Min(calls * length, sound.Length())
    ensures !PlayRepeatedly(NewCursor(sound, false), length, calls).loop
    ensures PlayRepeatedly(NewCursor(sound, false), length, calls).sound == sound
    ensures calls > 0 ==> (PlayRepeatedly(NewCursor(sound, false), length, calls).isPlaying <==> calls * length < sound.Length())
  {
    if calls > 0 {
      OneShotRunPosition(sound, length, calls - 1);
      assert calls * length == (calls - 1) * length + length;
    }
  }

  lemma MulMonotone(a: int, b: int, length: int)
    requires 0 <= a <= b && 0 <= length
    ensures a * length <= b * length
  {
    if a < b {
      assert b * length == a * length + (b - a) * length;
    }
  }

  /** Playing a one-shot cursor over `N > 0` bytes with window `L > 0` reports it finished
      on call `m = ceil(N / L)` and not before, and call `c + 1` mixes a full window of
      `L` bytes for every `c < m - 1` (the last call mixes what is left). */
  lemma OneShotFinishesOnCeilCall(sound: Sound, length: int)
    requires length > 0 && sound.Length() > 0
    ensures (sound.Length() + length - 1) / length >= 1
    ensures var m := (sound.Length() + length - 1) / length;
      var last := PlayRepeatedly(NewCursor(sound, false), length, m);
      !last.isPlaying && last.position == sound.Length()
    ensures var m := (sound.Length() + length - 1) / length;
      forall c :: 1 <= c < m ==> PlayRepeatedly(NewCursor(sound, false), length, c).isPlaying
    ensures var m := (sound.Length() + length - 1) / length;
      forall c :: 0 <= c < m ==>
        MixLength(PlayRepeatedly(NewCursor(sound, false), length, c).position, sound.Length(), length)
          == Min(length, sound.Length() - c * length)
  {
    var n := sound.Length();
    var m := (n + length - 1) / length;
    CeilDiv(n, length);
    OneShotRunPosition(sound, length, m);
    forall c | 1 <= c < m
      ensures PlayRepeatedly(NewCursor(sound, false), length, c).isPlaying
    {
      OneShotRunPosition(sound, length, c);
      MulMonotone(c, m - 1, length);
    }
    forall c | 0 <= c < m
      ensures MixLength(PlayRepeatedly(NewCursor(sound, false), length, c).position, n, length)
        == Min(length, n - c * length)
    {
      OneShotRunPosition(sound, length, c);
      MulMonotone(c, m - 1, length);
    }
  }

  /** A 1000-byte waveform played one-shot in 400-byte windows: the first two calls mix
      400 bytes each and keep playing, the third mixes the last 200 and finishes. */
  lemma ThreeWindowRun(sound: Sound)
    requires sound.Length() == 1000
    ensures MixLength(PlayRepeatedly(NewCursor(sound, false), 400, 2).position, 1000, 400) == 200
    ensures PlayRepeatedly(NewCursor(sound, false), 400, 1).position == 400
    ensures PlayRepeatedly(NewCursor(sound, false), 400, 1).isPlaying
    ensures PlayRepeatedly(NewCursor(sound, false), 400, 2).position == 800
    ensures PlayRepeatedly(NewCursor(sound, false), 400, 2).isPlaying
    ensures PlayRepeatedly(NewCursor(sound, false), 400, 3).position == 1000
    ensures !PlayRepeatedly(NewCursor(sound, false), 400, 3).isPlaying
  {
  }

  /** The looping mixer's progress when the waveform is empty: each pass mixes 0 bytes and
      leaves the position at 0, so the count of mixed bytes never grows. */
  lemma EmptySoundLoopStalls(wanted: int)
    requires wanted > 0
    ensures LoopSegment(0, wanted, 0) == Segment(0, 0)
  {
  }

  /** The volume range that `mix` and `loop` assert on entry (0 excluded). */
  predicate MixVolumeAsserted(volume: int)
  {
    0 < volume < MaxVolume
  }

  lemma MulAtLeast(d: int, n: int)
    requires d >= 1 && n > 0
    ensures d * n >= n
  {
    if d > 1 {
      MulAtLeast(d - 1, n);
      assert d * n == (d - 1) * n + n;
    }
  }

  /** `x mod n` is the remainder of any division of `x` into multiples of `n`. */
  lemma ModUnique(x: int, q: int, r: int, n: int)
    requires n > 0 && 0 <= r < n && x == q * n + r
    ensures x % n == r
  {
    var q', r' := x / n, x % n;
    assert x == q' * n + r';
    if q' < q {
      var d := q - q';
      assert q * n == q' * n + d * n;
      MulAtLeast(d, n);
    } else if q < q' {
      var d := q' - q;
      assert q' * n == q * n + d * n;
      MulAtLeast(d, n);
    }
  }

  /** Adding the same amount to two numbers that agree modulo `n` keeps them in agreement. */
  lemma ModAddBoth(a: int, b: int, c: int, n: int)
    requires n > 0 && a % n == b % n
    ensures (a + c) % n == (b + c) % n
  {
    var qa, qb, qc := a / n, b / n, (a + c) / n;
    assert a == qa * n + a % n;
    assert b == qb * n + b % n;
    assert a + c == qc * n + (a + c) % n;
    assert (qc + qb - qa) * n == qc * n + qb * n - qa * n;
    ModUnique(b + c, qc + qb - qa, (a + c) % n, n);
  }

  /** `m = (n + L - 1) / L` is the number of `L`-byte windows needed to cover `n` bytes. */
  lemma CeilDiv(n: int, length: int)
    requires n > 0 && length > 0
    ensures (n + length - 1) / length >= 1
    ensures ((n + length - 1) / length - 1) * length < n <= (n + length - 1) / length * length
  {
    var m := (n + length - 1) / length;
    assert n + length - 1 == m * length + (n + length - 1) % length;
    assert (m - 1) * length == m * length - length;
  }

  /** Inside one pass of the looping mixer, the `j`-th byte read from `start` is byte
      `mixed + j` of the repetition that began at `position`. */
  lemma WindowSample(samples: seq<uint8>, position: int, mixed: int, start: int, j: int)
    requires |samples| > 0 && 0 <= position && 0 <= mixed && 0 <= start && 0 <= j
    requires start + j < |samples| && start % |samples| == (position + mixed) % |samples|
    ensures LoopedSample(samples, position, mixed + j) == samples[start + j]
  {
    ModAddBoth(start, position + mixed, j, |samples|);
    ModUnique(start + j, 0, start + j, |samples|);
  }

  /** Decoded sample data for one WAV file, converted to the device format. Immutable once
      built: every cursor over it reads the same bytes. */
  class Sound {
    const filename: string
    /** The converted PCM bytes; `mLength` is their count. */
    const samples: seq<uint8>

    /** A Sound built from the bytes its file decoded to (the decoding is not modelled). */
    constructor (filename: string, samples: seq<uint8>)
      ensures this.filename == filename && this.samples == samples
    {
      this.filename := filename;
      this.samples := samples;
    }

    /** mLength: the number of sample bytes. */
    function Length(): nat
    {
      |samples|
    }

    function GetFilename(): (r: string)
      ensures r == filename
    {
      filename
    }

    /** A new cursor over this Sound, at the start, not yet playing; it shares this Sound's
        samples rather than copying them. */
    method GetPlaybackInfo(loop: bool) returns (c: PlaybackInfo)
      ensures fresh(c) && c.sound == this && c.State() == NewCursor(this, loop) && c.Valid()
    {
      c := new PlaybackInfo(this, loop);
    }

    /** One-shot mixing: mixes the bytes from `position` on into the start of `audio`,
        clamped to what remains of the waveform, and returns the advanced position. */
    method Mix(audio: array<uint8>, length: int, volume: int, position: int) returns (newPosition: int)
      requires ValidVolume(volume)
      requires 0 <= length <= audio.Length
      requires 0 <= position <= Length()
      modifies audio
      ensures newPosition == position + MixLength(position, Length(), length)
      ensures forall k :: 0 <= k < MixLength(position, Length(), length) ==>
        audio[k] == MixByte(old(audio[k]), samples[position + k], volume)
      ensures forall k :: MixLength(position, Length(), length) <= k < audio.Length ==> audio[k] == old(audio[k])
    {
      var n := length;
      if position + n >= Length() {
        n := Length() - position;
      }
      MixInto(audio, 0, samples[position .. position + n], volume);
      newPosition := position + n;
    }

    /** Looping mixing: fills all `length` bytes of `audio`, byte `k` from waveform offset
        `(position + k) mod mLength`, and returns where the next call resumes. */
    method Loop(audio: array<uint8>, length: int, volume: int, position: int) returns (newPosition: int)
      requires ValidVolume(volume)
      requires 0 <= length <= audio.Length
      requires 0 <= position <= Length() && Length() > 0
      modifies audio
      ensures newPosition == LoopEnd(position, length, Length())
      ensures forall k :: 0 <= k < length ==>
        audio[k] == MixByte(old(audio[k]), LoopedSample(samples, position, k), volume)
      ensures forall k :: length <= k < audio.Length ==> audio[k] == old(audio[k])
    {
      var n := Length();
      var nMixed := 0;
      newPosition := position;
      while nMixed < length
        invariant 0 <= nMixed <= length
        invariant 0 <= newPosition <= n
        invariant nMixed > 0 ==> newPosition < n
        invariant length == 0 ==> newPosition == position
        invariant newPosition % n == (position + nMixed) % n
        invariant forall k :: 0 <= k < nMixed ==>
          audio[k] == MixByte(old(audio[k]), LoopedSample(samples, position, k), volume)
        invariant forall k :: nMixed <= k < audio.Length ==> audio[k] == old(audio[k])
        decreases length - nMixed, newPosition
      {
        var start := newPosition;
        var seg := LoopSegment(start, length - nMixed, n);
        newPosition := seg.next;
        var window := samples[start .. start + seg.writeLength];
        ghost var before := audio[..];
        MixInto(audio, nMixed, window, volume);
        forall k | 0 <= k < nMixed + seg.writeLength
          ensures audio[k] == MixByte(old(audio[k]), LoopedSample(samples, position, k), volume)
        {
          if k >= nMixed {
            var j := k - nMixed;
            assert audio[nMixed + j] == MixByte(before[nMixed + j], window[j], volume);
            WindowSample(samples, position, nMixed, start, j);
          }
        }
        ModAddBoth(start, position + nMixed, seg.writeLength, n);
        if start + seg.writeLength == n {
          ModUnique(n, 1, 0, n);
          ModUnique(0, 0, 0, n);
        }
        nMixed := nMixed + seg.writeLength;
      }
      if length > 0 {
        ModUnique(newPosition, 0, newPosition, n);
        assert newPosition == (position + length) % n;
      }
    }
  }

  /** A playback cursor: a read position, a playing flag and a loop flag over one Sound. */
  class PlaybackInfo {
    var position: int
    var isPlaying: bool
    var loop: bool
    const sound: Sound

    constructor (sound: Sound, loop: bool)
      ensures State() == NewCursor(sound, loop)
    {
      this.position := 0;
      this.sound := sound;
      this.isPlaying := false;
      this.loop := loop;
    }

    function State(): CursorState
      reads this
    {
      CursorState(sound, position, isPlaying, loop)
    }

    predicate Valid()
      reads this
    {
      ValidState(State())
    }

    function IsPlaying(): (r: bool)
      reads this
      ensures r == State().isPlaying
    {
      isPlaying
    }

    /** Two cursors are "the same sound" when they read the same Sound object, whatever
        their positions and flags. */
    function Equals(rhs: PlaybackInfo): (r: bool)
      ensures r <==> rhs.State().sound == State().sound
    {
      sound == rhs.sound
    }

    /** Fast-forward to the end and stop looping; the playing flag is left for the next
        `play` to clear. */
    method Stop()
      requires Valid()
      modifies this
      ensures Valid()
      ensures State() == StopState(old(State()))
    {
      loop := false;
      position := sound.Length();
    }

    /** Mixes this cursor into the first `length` bytes of `audio`: looping cursors fill
        the window, one-shot cursors mix what remains and report whether any is left. */
    method Play(audio: array<uint8>, length: int, volume: int)
      requires Valid()
      requires 0 <= length <= audio.Length
      requires ValidVolume(volume)
      modifies this, audio
      ensures Valid()
      ensures State() == PlayStep(old(State()), length)
      ensures forall k :: 0 <= k < length ==>
        audio[k] == MixOne(old(audio[k]), Contribution(old(State()), length, k), volume)
      ensures forall k :: length <= k < audio.Length ==> audio[k] == old(audio[k])
    {
      isPlaying := true;
      if loop {
        if sound.Length() > 0 {
          position := sound.Loop(audio, length, volume, position);
        }
      } else {
        position := sound.Mix(audio, length, volume, position);
        isPlaying := position < sound.Length();
      }
    }
  }
}
