/** The audio manager: a cache of decoded Sounds indexed by file name, the ordered list of
    active playback cursors, the global volume, and the device callback that zeroes a block
    and mixes every cursor into it, dropping the ones that have finished. */
module Audio {
  import opened Mixer
  import opened Sounds

  /** What `load` yields: a new cursor over the file's Sound, no sound at all (a failure
      suppressed because the device is not loaded), or the error it rethrows. */
  datatype LoadResult = Cursor(cursor: PlaybackInfo) | NoSound | Failed(message: string)

  const VolumeRangeError: string := "Volume out of range"

  /** No cursor appears twice in the list. */
  ghost predicate Distinct<T>(xs: seq<T>)
  {
    forall i, j :: 0 <= i < j < |xs| ==> xs[i] != xs[j]
  }

  /** Distance between two volumes. */
  function Dist(a: int, b: int): nat
  {
    if a <= b then b - a else a - b
  }

  /** The volume `adjustVolume` settles on for a requested value `v`: the valid volume
      nearest to `v`, so `v` itself when it is in range and the bound it overshot
      otherwise. */
  function ClampVolume(v: int): (r: int)
    ensures ValidVolume(r)
    ensures ValidVolume(v) ==> r == v
    ensures forall w :: ValidVolume(w) ==> Dist(r, v) <= Dist(w, v)
  {
    if v < 0 then 0 else if v >= MaxVolume then MaxVolume - 1 else v
  }

  /** A C++ `int`: 32 bits, two's complement. */
  predicate IsInt(x: int)
  {
    -0x8000_0000 <= x < 0x8000_0000
  }

  /** The `int` that an out-of-range sum wraps around to. */
  function WrapInt(x: int): (r: int)
    ensures IsInt(r)
    ensures IsInt(x) ==> r == x
    ensures (x - r) % 0x1_0000_0000 == 0
  {
    (x + 0x8000_0000) % 0x1_0000_0000 - 0x8000_0000
  }

  /** `adjustVolume` as the source computes it: the sum `mVolume + increment` is an `int`
      and wraps around before it is clamped. */
  function AdjustedVolumeAsWritten(current: int, increment: int): (r: int)
    requires IsInt(current) && IsInt(increment)
    ensures ValidVolume(r)
    ensures IsInt(current + increment) ==> r == ClampVolume(current + increment)
  {
    ClampVolume(WrapInt(current + increment))
  }

  /** A large positive increment overflows the sum and mutes the sound instead of raising it
      to the maximum. */
  lemma AdjustVolumeOverflowMutes()
    ensures IsInt(MaxVolume / 2) && IsInt(0x7FFF_FFFF)
    ensures AdjustedVolumeAsWritten(MaxVolume / 2, 0x7FFF_FFFF) == 0
    ensures ClampVolume(MaxVolume / 2 + 0x7FFF_FFFF) == MaxVolume - 1
  {
  }

  /** The first `n` elements of the list with every element whose flag is false erased,
      in the original order. */
  function Keep<T>(xs: seq<T>, flags: seq<bool>, n: nat): (r: seq<T>)
    requires |xs| == |flags| && n <= |xs|
    ensures |r| <= n
  {
    if n == 0 then []
    else Keep(xs, flags, n - 1) + (if flags[n - 1] then [xs[n - 1]] else [])
  }

  /** The positions below `n` whose flag is true, in increasing order. */
  function KeptIndices(flags: seq<bool>, n: nat): (idx: seq<nat>)
    requires n <= |flags|
    ensures forall t :: 0 <= t < |idx| ==> idx[t] < n && flags[idx[t]]
    ensures forall s, t :: 0 <= s < t < |idx| ==> idx[s] < idx[t]
    ensures forall j :: 0 <= j < n && flags[j] ==> j in idx
  {
    if n == 0 then []
    else KeptIndices(flags, n - 1) + (if flags[n - 1] then [n - 1] else [])
  }

  /** Erasing the unflagged elements keeps exactly the flagged ones, in their order: the
      `t`-th survivor is the element at the `t`-th flagged position. */
  lemma {:induction false} KeepIsSelection<T>(xs: seq<T>, flags: seq<bool>, n: nat)
    requires |xs| == |flags| && n <= |xs|
    ensures |Keep(xs, flags, n)| == |KeptIndices(flags, n)|
    ensures forall t :: 0 <= t < |KeptIndices(flags, n)| ==> Keep(xs, flags, n)[t] == xs[KeptIndices(flags, n)[t]]
  {
    if n > 0 {
      KeepIsSelection(xs, flags, n - 1);
    }
  }

  /** An element survives exactly when it sits at some flagged position. */
  lemma KeepMembers<T>(xs: seq<T>, flags: seq<bool>, x: T)
    requires |xs| == |flags|
    ensures x in Keep(xs, flags, |xs|) <==> exists j :: 0 <= j < |xs| && xs[j] == x && flags[j]
  {
    KeepIsSelection(xs, flags, |xs|);
    var kept, idx := Keep(xs, flags, |xs|), KeptIndices(flags, |xs|);
    if x in kept {
      var t :| 0 <= t < |kept| && kept[t] == x;
      assert xs[idx[t]] == x && flags[idx[t]];
    }
    if j :| 0 <= j < |xs| && xs[j] == x && flags[j] {
      var t :| 0 <= t < |idx| && idx[t] == j;
      assert kept[t] == x;
    }
  }

  /** Erasing elements from a list without repetitions leaves a list without repetitions. */
  lemma KeepDistinct<T>(xs: seq<T>, flags: seq<bool>)
    requires |xs| == |flags| && Distinct(xs)
    ensures Distinct(Keep(xs, flags, |xs|))
  {
    KeepIsSelection(xs, flags, |xs|);
  }

  /** Snapshots of the listed cursors, in list order. */
  function StatesOf(cs: seq<PlaybackInfo>): (ss: seq<CursorState>)
    reads cs
    ensures |ss| == |cs|
    ensures forall t :: 0 <= t < |cs| ==> ss[t] == cs[t].State()
  {
    seq(|cs|, t requires 0 <= t < |cs| reads cs => cs[t].State())
  }

  predicate AllValid(ss: seq<CursorState>)
  {
    forall t :: 0 <= t < |ss| ==> ValidState(ss[t])
  }

  /** For each cursor, whether it still reports playing after one `play` call. */
  function StillPlaying(ss: seq<CursorState>, length: int): (flags: seq<bool>)
    requires AllValid(ss) && 0 <= length
    ensures |flags| == |ss|
    ensures forall t :: 0 <= t < |ss| ==> flags[t] == PlayStep(ss[t], length).isPlaying
  {
    seq(|ss|, t requires 0 <= t < |ss| && AllValid(ss) => PlayStep(ss[t], length).isPlaying)
  }

  /** Byte `k` of a block that started as silence after the first `n` cursors in `ss` were
      mixed into it one after the other, in list order. */
  function MixAll(ss: seq<CursorState>, n: nat, length: int, k: int, volume: int): uint8
    requires n <= |ss| && AllValid(ss) && 0 <= length && 0 <= k
  {
    if n == 0 then 0
    else MixOne(MixAll(ss, n - 1, length, k, volume), Contribution(ss[n - 1], length, k), volume)
  }

  /** At volume 0 every contribution is scaled away: the block the callback produces is
      silence, whatever the cursors hold. */
  lemma {:induction false} MuteMixesSilence(ss: seq<CursorState>, n: nat, length: int, k: int)
    requires n <= |ss| && AllValid(ss) && 0 <= length && 0 <= k
    ensures MixAll(ss, n, length, k, 0) == 0
  {
    if n > 0 {
      MuteMixesSilence(ss, n - 1, length, k);
    }
  }

  /** Cursors that were stopped (or ran out) before a callback contribute only silence to
      it, and the callback erases every one of them. */
  lemma {:induction false} StoppedMixIsSilent(cs: seq<PlaybackInfo>, ss: seq<CursorState>, n: nat, length: int, k: int, volume: int)
    requires AllValid(ss) && 0 <= length && 0 <= k && |cs| == |ss| && n <= |ss|
    requires forall t :: 0 <= t < |ss| ==> !ss[t].loop && ss[t].position == ss[t].sound.Length()
    ensures MixAll(ss, n, length, k, volume) == 0
    ensures Keep(cs, StillPlaying(ss, length), n) == []
  {
    if n > 0 {
      StoppedMixIsSilent(cs, ss, n - 1, length, k, volume);
    }
  }

  /** memset(audio, 0, length): the first `length` bytes become silence. */
  method Silence(audio: array<uint8>, length: int)
    requires 0 <= length <= audio.Length
    modifies audio
    ensures forall k :: 0 <= k < length ==> audio[k] == 0
    ensures forall k :: length <= k < audio.Length ==> audio[k] == old(audio[k])
  {
    var z := 0;
    while z < length
      invariant 0 <= z <= length
      invariant forall k :: 0 <= k < z ==> audio[k] == 0
      invariant forall k :: z <= k < audio.Length ==> audio[k] == old(audio[k])
    {
      audio[z] := 0;
      z := z + 1;
    }
  }

  /** One step of erasing while iterating: with `list` holding the survivors among the
      first `j` elements followed by the untouched rest, its element `i` is `xs[j]`, and
      erasing it (or stepping over it when it is flagged) gives the same shape for `j + 1`. */
  lemma PruneStep<T>(list: seq<T>, xs: seq<T>, flags: seq<bool>, i: nat, j: nat)
    requires |xs| == |flags| && j < |xs|
    requires list == Keep(xs, flags, j) + xs[j..] && i + (|xs| - j) == |list|
    ensures i < |list| && list[i] == xs[j]
    ensures flags[j] ==> list == Keep(xs, flags, j + 1) + xs[j + 1..]
    ensures !flags[j] ==> list[..i] + list[i + 1..] == Keep(xs, flags, j + 1) + xs[j + 1..]
  {
    var done := Keep(xs, flags, j);
    assert xs[j..] == [xs[j]] + xs[j + 1..];
    assert list == done + [xs[j]] + xs[j + 1..];
    assert list[..i] == done;
    assert list[i + 1..] == xs[j + 1..];
  }

  /** The state of the callback's loop after its first `j` turns: `kept` holds the
      survivors among the first `j` cursors followed by the cursors not yet played, `i` is
      the position of cursor `j` in it, the first `j` cursors have played and the others
      are as they were, and `audio` holds the mix of the first `j` of them. */
  ghost predicate Progress(cs: seq<PlaybackInfo>, ss: seq<CursorState>, flags: seq<bool>,
                           kept: seq<PlaybackInfo>, i: nat, j: nat,
                           audio: array<uint8>, length: int, volume: int)
    reads cs, audio
  {
    && |cs| == |ss| == |flags| && j <= |cs| && AllValid(ss) && 0 <= length <= audio.Length
    && kept == Keep(cs, flags, j) + cs[j..] && i + (|cs| - j) == |kept|
    && (forall t {:trigger cs[t].State()} :: 0 <= t < |cs| ==>
          cs[t].State() == if t < j then PlayStep(ss[t], length) else ss[t])
    && (forall k :: 0 <= k < length ==> audio[k] == MixAll(ss, j, length, k, volume))
  }

  /** One turn of the callback's loop: plays `kept[i]`, which is the `j`-th cursor of the
      original list `cs`, into `audio` and erases it from `kept` when it is no longer
      playing. */
  method PlayNext(cs: seq<PlaybackInfo>, ghost ss: seq<CursorState>, ghost flags: seq<bool>,
                  kept: seq<PlaybackInfo>, i: nat, j: nat,
                  audio: array<uint8>, length: int, volume: int)
    returns (kept': seq<PlaybackInfo>, i': nat)
    requires Progress(cs, ss, flags, kept, i, j, audio, length, volume)
    requires j < |cs| && Distinct(cs) && ValidVolume(volume)
    requires forall t :: 0 <= t < |ss| ==> flags[t] == PlayStep(ss[t], length).isPlaying
    modifies cs[j], audio
    ensures Progress(cs, ss, flags, kept', i', j + 1, audio, length, volume)
    ensures forall k :: length <= k < audio.Length ==> audio[k] == old(audio[k])
  {
    PruneStep(kept, cs, flags, i, j);
    var cursor := kept[i];
    cursor.Play(audio, length, volume);
    forall t | 0 <= t < |cs| && t != j
      ensures cs[t].State() == old(cs[t].State())
    {
      assert cs[t] != cs[j];
    }
    if !cursor.IsPlaying() {
      kept', i' := kept[..i] + kept[i + 1..], i;
    } else {
      kept', i' := kept, i + 1;
    }
  }

  /** The callback's loop over the cursor list: plays every cursor of `cs` into `audio` in
      order and returns the list with the cursors that stopped erased, keeping the order of
      the others. `ss` holds the cursors' states on entry. */
  method PlayEach(cs: seq<PlaybackInfo>, ghost ss: seq<CursorState>, audio: array<uint8>, length: int, volume: int)
    returns (kept: seq<PlaybackInfo>)
    requires Distinct(cs) && |ss| == |cs| && AllValid(ss)
    requires forall t :: 0 <= t < |cs| ==> cs[t].State() == ss[t]
    requires 0 <= length <= audio.Length && ValidVolume(volume)
    requires forall k :: 0 <= k < length ==> audio[k] == 0
    modifies cs, audio
    ensures forall t :: 0 <= t < |cs| ==> cs[t].State() == PlayStep(ss[t], length)
    ensures kept == Keep(cs, StillPlaying(ss, length), |cs|)
    ensures forall k :: 0 <= k < length ==> audio[k] == MixAll(ss, |ss|, length, k, volume)
    ensures forall k :: length <= k < audio.Length ==> audio[k] == old(audio[k])
  {
    ghost var flags := StillPlaying(ss, length);
    kept := cs;
    var i, j := 0, 0;
    assert cs[0..] == cs;
    while j < |cs|
      invariant Progress(cs, ss, flags, kept, i, j, audio, length, volume)
      invariant forall k :: length <= k < audio.Length ==> audio[k] == old(audio[k])
    {
      kept, i := PlayNext(cs, ss, flags, kept, i, j, audio, length, volume);
      j := j + 1;
    }
    assert cs[j..] == [];
  }

  /** What the callback's pruning leaves: the cursors that still play, each once, each in
      a valid state. */
  lemma PrunedCursors(cs: seq<PlaybackInfo>, ss: seq<CursorState>, kept: seq<PlaybackInfo>, length: int)
    requires Distinct(cs) && |ss| == |cs| && AllValid(ss) && 0 <= length
    requires forall t :: 0 <= t < |cs| ==> cs[t].State() == PlayStep(ss[t], length)
    requires kept == Keep(cs, StillPlaying(ss, length), |cs|)
    ensures Distinct(kept)
    ensures forall c :: c in kept <==> c in cs && c.isPlaying
    ensures forall c :: c in kept ==> c.Valid()
  {
    var flags := StillPlaying(ss, length);
    KeepDistinct(cs, flags);
    forall c
      ensures c in kept <==> c in cs && c.isPlaying
    {
      KeepMembers(cs, flags, c);
      if c in cs {
        var t :| 0 <= t < |cs| && cs[t] == c;
        assert flags[t] == c.isPlaying;
      }
    }
    forall c | c in kept
      ensures c.Valid()
    {
      var t :| 0 <= t < |cs| && cs[t] == c;
      assert c.State() == PlayStep(ss[t], length);
    }
  }

  class AudioManager {
    /** Whether the audio device was opened. */
    var loaded: bool
    var volume: int
    /** At most one Sound per file name, stored under that name. */
    var soundMap: map<string, Sound>
    /** The active cursors, in the order `play` started them. */
    var soundList: seq<PlaybackInfo>

    ghost predicate Valid()
      reads this, soundList
    {
      && ValidVolume(volume)
      && (forall name :: name in soundMap ==> soundMap[name].filename == name)
      && (forall c :: c in soundList ==>
            c.Valid() && c.sound.filename in soundMap && soundMap[c.sound.filename] == c.sound)
      && Distinct(soundList)
    }

    /** The defaults of a new manager. `deviceOpened` stands for the outcome of opening the
        audio device, which the model does not perform. */
    constructor (deviceOpened: bool)
      ensures Valid()
      ensures loaded == deviceOpened && volume == MaxVolume / 2
      ensures soundMap == map[] && soundList == []
    {
      loaded := deviceOpened;
      volume := MaxVolume / 2;
      soundMap := map[];
      soundList := [];
    }

    /** A new cursor over the Sound cached for `filename`, decoding it first when it is not
        cached; `decoded` is what decoding the file would produce and is consulted only on
        a cache miss. A failed decoding leaves the cache as it was. Cursors are one-shot
        unless `loop` is given. */
    method Load(filename: string, decoded: Decoded, loop: bool := false) returns (r: LoadResult)
      requires Valid()
      modifies this
      ensures Valid()
      ensures loaded == old(loaded) && volume == old(volume) && soundList == old(soundList)
      ensures filename in old(soundMap) ==>
        soundMap == old(soundMap) && r.Cursor? && r.cursor.sound == old(soundMap)[filename]
      ensures filename !in old(soundMap) && decoded.Decoded? ==>
        r.Cursor? && fresh(r.cursor.sound) && r.cursor.sound.samples == decoded.samples
        && soundMap == old(soundMap)[filename := r.cursor.sound]
      ensures filename !in old(soundMap) && decoded.DecodeError? ==>
        soundMap == old(soundMap) && r == if loaded then Failed(decoded.message) else NoSound
      ensures r.Cursor? ==>
        fresh(r.cursor) && r.cursor.State() == NewCursor(r.cursor.sound, loop)
        && r.cursor.sound.filename == filename && soundMap[filename] == r.cursor.sound
    {
      var sound: Sound;
      if filename in soundMap {
        sound := soundMap[filename];
      } else {
        match decoded
        case DecodeError(message) =>
          if loaded {
            return Failed(message);
          } else {
            return NoSound;
          }
        case Decoded(samples) =>
          sound := new Sound(filename, samples);
          soundMap := soundMap[filename := sound];
      }
      var cursor := sound.GetPlaybackInfo(loop);
      r := Cursor(cursor);
    }

    /** Range-checked volume change: out-of-range values are refused with an error and
        leave the volume as it was. */
    method SetVolume(v: int) returns (error: Option<string>)
      requires Valid()
      modifies this
      ensures Valid()
      ensures loaded == old(loaded) && soundMap == old(soundMap) && soundList == old(soundList)
      ensures !ValidVolume(v) ==> error == Some(VolumeRangeError) && volume == old(volume)
      ensures ValidVolume(v) ==> error == None && volume == v
    {
      if v < 0 || v >= MaxVolume {
        return Some(VolumeRangeError);
      }
      volume := v;
      error := None;
    }

    /** Relative volume change that saturates at the ends of the range instead of failing. */
    method AdjustVolume(increment: int)
      requires Valid()
      modifies this
      ensures Valid()
      ensures loaded == old(loaded) && soundMap == old(soundMap) && soundList == old(soundList)
      ensures volume == ClampVolume(old(volume) + increment)
    {
      volume := volume + increment;
      if volume < 0 {
        volume := 0;
      } else if volume >= MaxVolume {
        volume := MaxVolume - 1;
      }
    }

    /** Starts playing `filename`: appends one new cursor at the end of the list when `load`
        yields one, and leaves the list alone otherwise. Load errors are passed on. One-shot
        unless `loop` is given. */
    method Play(filename: string, decoded: Decoded, loop: bool := false) returns (error: Option<string>)
      requires Valid()
      modifies this
      ensures Valid()
      ensures loaded == old(loaded) && volume == old(volume)
      ensures filename in old(soundMap) || decoded.Decoded? ==>
        && error == None
        && |soundList| == |old(soundList)| + 1
        && soundList[..|old(soundList)|] == old(soundList)
        && fresh(soundList[|old(soundList)|])
        && filename in soundMap
        && soundList[|old(soundList)|].State() == NewCursor(soundMap[filename], loop)
        && soundMap == old(soundMap)[filename := soundMap[filename]]
        && (filename in old(soundMap) ==> soundMap == old(soundMap))
        && (filename !in old(soundMap) ==> fresh(soundMap[filename]) && soundMap[filename].samples == decoded.samples)
      ensures filename !in old(soundMap) && decoded.DecodeError? ==>
        && error == (if loaded then Some(decoded.message) else None)
        && soundList == old(soundList) && soundMap == old(soundMap)
    {
      var r := Load(filename, decoded, loop);
      match r
      case Cursor(c) =>
        soundList := soundList + [c];
        error := None;
      case NoSound =>
        error := None;
      case Failed(message) =>
        error := Some(message);
    }

    /** Stops every active cursor; the list itself is left for the next callback to prune. */
    method StopAll()
      requires Valid()
      modifies soundList
      ensures Valid()
      ensures forall c :: c in soundList ==> c.State() == StopState(old(c.State()))
    {
      var i := 0;
      while i < |soundList|
        invariant 0 <= i <= |soundList|
        invariant Valid()
        invariant forall t :: 0 <= t < i ==> soundList[t].State() == StopState(old(soundList[t].State()))
        invariant forall t :: i <= t < |soundList| ==> soundList[t].State() == old(soundList[t].State())
      {
        soundList[i].Stop();
        i := i + 1;
      }
    }

    /** Stops exactly the active cursors that play `filename`, leaving the others as they
        were; loads the file into the cache first if it was not there. */
    method StopByName(filename: string, decoded: Decoded) returns (error: Option<string>)
      requires Valid()
      modifies this, soundList
      ensures Valid()
      ensures loaded == old(loaded) && volume == old(volume) && soundList == old(soundList)
      ensures filename in old(soundMap) ==> soundMap == old(soundMap)
      ensures filename !in old(soundMap) && decoded.Decoded? ==>
        && filename in soundMap && soundMap == old(soundMap)[filename := soundMap[filename]]
        && fresh(soundMap[filename]) && soundMap[filename].samples == decoded.samples
      ensures filename !in old(soundMap) && decoded.DecodeError? ==>
        && soundMap == old(soundMap)
        && error == (if loaded then Some(decoded.message) else None)
        && forall c :: c in soundList ==> c.State() == old(c.State())
      ensures filename in old(soundMap) || decoded.Decoded? ==>
        && error == None
        && forall c :: c in soundList ==>
             c.State() == (if c.sound.filename == filename then StopState(old(c.State())) else old(c.State()))
    {
      var r := Load(filename, decoded);
      match r
      case Failed(message) =>
        return Some(message);
      case NoSound =>
        return None;
      case Cursor(temp) =>
        var i := 0;
        while i < |soundList|
          modifies soundList
          invariant 0 <= i <= |soundList|
          invariant soundList == old(soundList) && filename in soundMap && soundMap[filename] == temp.sound
          invariant Valid()
          invariant forall t :: 0 <= t < i ==>
            soundList[t].State() == (if soundList[t].sound.filename == filename
                                     then StopState(old(soundList[t].State()))
                                     else old(soundList[t].State()))
          invariant forall t :: i <= t < |soundList| ==> soundList[t].State() == old(soundList[t].State())
        {
          if temp.Equals(soundList[i]) {
            soundList[i].Stop();
          }
          i := i + 1;
        }
        error := None;
    }

    /** Replacing the list by a sub-list of valid cursors keeps the invariant. */
    lemma SubListValid(cs: seq<PlaybackInfo>)
      requires ValidVolume(volume) && (forall name :: name in soundMap ==> soundMap[name].filename == name)
      requires forall c :: c in cs ==> c.sound.filename in soundMap && soundMap[c.sound.filename] == c.sound
      requires Distinct(soundList) && forall c :: c in soundList ==> c in cs && c.Valid()
      ensures Valid()
    {
    }

    /** The device callback: zeroes the first `length` bytes of `audio`, plays every cursor
        into them in list order at the current volume, and erases the cursors that are no
        longer playing. Does nothing at all when the device is not loaded. */
    method MixAudio(audio: array<uint8>, length: int)
      requires Valid()
      requires 0 <= length <= audio.Length
      modifies this, soundList, audio
      ensures Valid()
      ensures loaded == old(loaded) && volume == old(volume) && soundMap == old(soundMap)
      ensures !loaded ==>
        soundList == old(soundList) && audio[..] == old(audio[..])
        && forall c :: c in soundList ==> c.State() == old(c.State())
      ensures loaded ==>
        && AllValid(old(StatesOf(soundList)))
        && (forall t :: 0 <= t < |old(soundList)| ==>
              old(soundList)[t].State() == PlayStep(old(soundList[t].State()), length))
        && soundList == Keep(old(soundList), StillPlaying(old(StatesOf(soundList)), length), |old(soundList)|)
        && (forall c :: c in soundList <==> c in old(soundList) && c.isPlaying)
        && (forall k :: 0 <= k < length ==> audio[k] == MixAll(old(StatesOf(soundList)), |old(soundList)|, length, k, volume))
        && (forall k :: length <= k < audio.Length ==> audio[k] == old(audio[k]))
    {
      if !loaded {
        return;
      }
      var cs := soundList;
      ghost var ss := StatesOf(cs);
      forall t | 0 <= t < |cs|
        ensures ValidState(ss[t])
      {
        assert cs[t] in soundList;
      }
      Silence(audio, length);
      var kept := PlayEach(cs, ss, audio, length, volume);
      PrunedCursors(cs, ss, kept, length);
      soundList := kept;
      SubListValid(cs);
    }
  }

  /** Loading a file twice gives two distinct cursors over one and the same Sound. */
  method LoadTwiceSharesSound(m: AudioManager, filename: string, first: Decoded, second: Decoded)
    returns (r1: LoadResult, r2: LoadResult)
    requires m.Valid()
    modifies m
    ensures r1.Cursor? ==> r2.Cursor? && r1.cursor.sound == r2.cursor.sound && r1.cursor != r2.cursor
  {
    r1 := m.Load(filename, first);
    r2 := m.Load(filename, second);
  }

  /** Thirteen presses of the volume-down key (`adjustVolume(-5)`) on a new manager clamp the
      volume to 0, a volume the manager holds as valid but the mixing routines' entry check
      rejects. */
  method MinusKeyReachesMute() returns (m: AudioManager)
    ensures m.Valid() && m.volume == 0
    ensures ValidVolume(m.volume) && !MixVolumeAsserted(m.volume)
  {
    m := new AudioManager(true);
    var presses := 0;
    while presses < 13
      invariant 0 <= presses <= 13 && m.Valid()
      invariant m.volume == ClampVolume(MaxVolume / 2 - 5 * presses)
    {
      m.AdjustVolume(-5);
      presses := presses + 1;
    }
  }
}
