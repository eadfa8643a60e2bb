# Audio mixing engine of cs165-asteroids, modelled in Dafny

This project models the core of the game's audio engine. It has three classes:
- `Sound` holds the decoded sample bytes of one WAV file.
- `PlaybackInfo` is a playback cursor over a `Sound`. It has a read position, a loop flag and a playing flag.
- `AudioManager` owns three things:
  - a cache of Sounds keyed by file name;
  - the ordered list of active cursors;
  - the global volume.

On every device callback, `AudioManager::mixAudio` zeroes a byte block. It mixes every cursor into the block, in list order, at the current volume. Then it erases the cursors that have finished, keeping the order of the rest.

The model is split into three files:
- `mixer.dfy` (module `Mixer`) has the byte type and the library volume bound. It also has the block-mixing primitive the engine calls.
- `sound.dfy` (module `Sounds`) has the two classes `Sound` and `PlaybackInfo`, with their mixing routines. Next to them are specification functions. `PlayStep` gives a cursor's next state, and `Contribution` gives the byte a cursor adds at each offset of a block. Lemmas about whole runs of calls sit beside them.
- `audio.dfy` (module `Audio`) has the `AudioManager` class. Its list of cursors is a `seq` that the methods reassign, and its cache is a `map`. `MixAudio` is proved against two functions: `MixAll`, the byte-by-byte mix of every cursor, and `Keep`, the erase-while-iterating result.

`mixAudio` returns without touching the block when the device is not loaded (audio.cpp:215-216); `MixAudio` leaves `audio` unchanged when `loaded` is false.

Three things outside the engine's control become parameters:
- The result of decoding a WAV file is a `Decoded` value: sample bytes or an error message.
- Whether the audio device opened is the `AudioManager` constructor's `deviceOpened`.
- The audio block is an `array<uint8>` handed to the callback.

## Model

| member | source | states |
|---|---|---|
| `Mixer.MixInto` | sound.cpp:105 | mixing a block of `n` source bytes at `offset` combines each destination byte `offset + k` with source byte `k` and writes no byte outside that window |
| `Sounds.MixLength` | sound.cpp:98-102 | the number of bytes one-shot mixing copies is between 0 and the window length, never reads past the end of the waveform, and is the full window unless it reaches the end exactly |
| `Sounds.LoopSegment` | sound.cpp:124-139 | one pass of the looping mixer mixes at most what is still wanted and no more than what is left of the waveform; it falls short only at the end of the waveform, and it wraps the position to 0 exactly when the end is reached |
| `Sounds.LoopEnd` | sound.cpp:122-145 | after looping mixing the position lies inside the waveform; it is unchanged for an empty window and strictly below the length otherwise, so the position is never left at the end |
| `Sounds.PlayStep` | sound.cpp:31-44 | one `play` keeps the position inside the waveform and keeps the Sound and the loop flag. A looping cursor reports playing. A one-shot cursor advances by the clamped mix length and reports playing exactly when its position is below the length |
| `Sounds.PlayRepeatedly` | sound.cpp:31-44 | any number of consecutive `play` calls keeps the position inside the waveform and keeps the Sound and the loop flag |
| `Sounds.StopThenPlayIsSilent` | sound.cpp:19-23 | after `stop`, the next `play` reports not playing and leaves the position at the end, and the cursor contributes nothing to any byte of the block, whether it was looping or not |
| `Sounds.LoopingNeverFinishes` | sound.cpp:33-38 | a looping cursor still reports playing, and still loops, after any positive number of `play` calls |
| `Sounds.OneShotRunPosition` | sound.cpp:39-43 | after `c` one-shot calls with window `L`, a fresh cursor's position is `min(c*L, mLength)` and it reports playing exactly when `c*L < mLength` |
| `Sounds.OneShotFinishesOnCeilCall` | sound.cpp:98-106 | with window `L > 0` over `N > 0` bytes, the cursor reports finished on call `ceil(N/L)` and not before, at position `N`; every call before the last mixes a full window, and the last mixes what is left |
| `Sounds.ThreeWindowRun` | sound.cpp:98-106 | a 1000-byte waveform in 400-byte windows: positions 400, 800, 1000, playing after the first two calls, finished after the third, which mixes 200 bytes |
| `Sounds.EmptySoundLoopStalls` | sound.cpp:128-133 | on an empty waveform a pass of the looping mixer mixes 0 bytes and leaves the position at 0, so its loop makes no progress |
| `Sounds.Sound.constructor` | sound.cpp:55-61 | a Sound keeps the file name and the sample bytes it was built from |
| `Sounds.Sound.GetFilename` | sound.h:127 | returns the name the Sound was built with |
| `Sounds.Sound.GetPlaybackInfo` | sound.cpp:78-81 | returns a new cursor over this very Sound, which shares its samples, at position 0, not playing, with the requested loop flag |
| `Sounds.Sound.Mix` | sound.cpp:90-107 | mixes byte `position + k` of the waveform into block byte `k` for every `k` below the clamped length, leaves the rest of the block unchanged, and returns the position advanced by the clamped length |
| `Sounds.Sound.Loop` | sound.cpp:116-146 | on a non-empty waveform it terminates having filled all `length` bytes: block byte `k` gets waveform byte `(position + k) mod mLength`. Bytes past `length` are unchanged, and the returned position is `(position + length) mod mLength` (the old position for an empty window) |
| `Sounds.PlaybackInfo.constructor` | sound.h:35-36 | a new cursor is at position 0, not playing, with the given Sound and loop flag |
| `Sounds.PlaybackInfo.IsPlaying` | sound.h:44 | reads the playing flag and changes nothing |
| `Sounds.PlaybackInfo.Equals` | sound.h:66 | two cursors compare equal exactly when they read the same Sound object, whatever their positions and flags |
| `Sounds.PlaybackInfo.Stop` | sound.cpp:19-23 | clears the loop flag, moves the position to the end of the waveform and changes nothing else |
| `Sounds.PlaybackInfo.Play` | sound.cpp:31-44 | the new cursor state is `PlayStep` of the old one. Each block byte below `length` is the old byte mixed with the cursor's `Contribution`, and bytes past `length` are unchanged |
| `Audio.ClampVolume` | audio.cpp:127-139 | the adjusted volume is always valid; it equals the requested value when that is in range, and otherwise no valid volume is nearer to the requested value |
| `Audio.WrapInt` | audio.cpp:129 | a C++ `int` sum wraps to the unique 32-bit value congruent to it modulo 2^32, so it is unchanged when it already fits |
| `Audio.AdjustedVolumeAsWritten` | audio.cpp:129-138 | the volume `adjustVolume` computes with 32-bit arithmetic is valid, and it equals the clamped sum whenever the sum does not overflow |
| `Audio.AdjustVolumeOverflowMutes` | audio.cpp:129 | from the default volume, an increment of `INT_MAX` wraps the sum and mutes the sound instead of raising it to the maximum |
| `Audio.MinusKeyReachesMute` | audio.cpp:127-139 | thirteen `adjustVolume(-5)` calls on a new manager leave it valid at volume 0, which the mixing routines' `volume > 0` entry check rejects |
| `Audio.MuteMixesSilence` | sound.cpp:105 | at volume 0 the callback's block is silence at every byte, whatever cursors are mixed into it |
| `Audio.Keep` | audio.cpp:229-237 | erasing cursors from a prefix of the list never makes it longer |
| `Audio.KeptIndices` | audio.cpp:229-237 | lists every flagged position below `n` exactly once, in increasing order |
| `Audio.KeepIsSelection` | audio.cpp:229-237 | the `t`-th survivor of the erasure is the element at the `t`-th flagged position, so the survivors keep their relative order |
| `Audio.KeepMembers` | audio.cpp:229-237 | an element survives the erasure exactly when it stands at a flagged position |
| `Audio.KeepDistinct` | audio.cpp:229-237 | erasing from a list without repeats leaves a list without repeats |
| `Audio.StoppedMixIsSilent` | audio.cpp:167-175 | once every cursor is stopped, the next callback mixes pure silence into every byte and erases every cursor |
| `Audio.Silence` | audio.cpp:219 | the first `length` block bytes become 0 and the rest are unchanged |
| `Audio.PruneStep` | audio.cpp:229-236 | in erase-while-iterating, the iterator's element is the next cursor of the original list; erasing it or stepping past it keeps "survivors so far, then the unvisited rest" |
| `Audio.PlayNext` | audio.cpp:225-237 | one turn of the callback loop plays the current cursor and leaves the other cursors as they were. The block then holds the mix of one more cursor, and the list keeps its "survivors so far, then the unvisited rest" shape |
| `Audio.PlayEach` | audio.cpp:222-238 | every cursor is played exactly once, in list order; block byte `k` is the in-order mix of all cursors' contributions over silence, and the returned list is the original with exactly the finished cursors erased, in order |
| `Audio.PrunedCursors` | audio.cpp:229-233 | the cursors left after the callback are exactly those of the old list that still play, each once and each in a valid state |
| `Audio.AudioManager.constructor` | audio.cpp:10-14 | a new manager has volume `SDL_MIX_MAXVOLUME / 2`, an empty cache and an empty list, and records whether the device opened |
| `Audio.AudioManager.Load` | audio.cpp:80-108 | on a cache hit the result is a fresh cursor over the cached Sound and the cache is unchanged. On a miss with a decoded file, exactly one entry, a new Sound with those bytes, is added under the name. A failed decoding leaves the cache unchanged and yields the error if the device is loaded, or no cursor if not. The cursor starts at 0, not playing, one-shot by default |
| `Audio.AudioManager.SetVolume` | audio.cpp:114-121 | an out-of-range volume is refused with the range error and leaves the volume unchanged; an in-range one becomes the volume; nothing else changes |
| `Audio.AudioManager.AdjustVolume` | audio.cpp:127-139 | the new volume is the old one plus the increment, clamped to the valid range; nothing else changes and no error is possible |
| `Audio.AudioManager.Play` | audio.cpp:154-162 | when `load` yields a cursor, exactly one fresh cursor for the file is appended at the end and the existing entries are unchanged; on a cache miss the cached Sound is new and holds the decoded bytes. When it yields none, the list and cache are unchanged and a load error is passed on |
| `Audio.AudioManager.StopAll` | audio.cpp:167-175 | every listed cursor is stopped; the list itself keeps its length and order |
| `Audio.AudioManager.StopByName` | audio.cpp:181-194 | exactly the listed cursors over the named file's Sound are stopped and all others are untouched. The list keeps its length and order, and on a cache miss a new Sound holding the decoded bytes is cached under the name. A failed load stops nothing |
| `Audio.AudioManager.SubListValid` | audio.h:25-26 | replacing the list by a sub-list of valid cursors over cached Sounds keeps the manager's invariant |
| `Audio.AudioManager.MixAudio` | audio.cpp:213-238 | without a device nothing changes. Otherwise every cursor is played once and block byte `k` is the in-order mix of all contributions over silence. The list becomes the old one with exactly the finished cursors erased, in order, and bytes past `length` are unchanged |
| `Audio.LoadTwiceSharesSound` | audio.cpp:82-89 | loading a file twice yields two distinct cursors over one and the same Sound |

The manager's invariant `AudioManager.Valid` (audio.h:22-26) holds before and after every method. It says:
- the volume is in range;
- every cached Sound is stored under its own file name, so there is at most one Sound per name;
- every listed cursor is valid and reads a cached Sound;
- no cursor is listed twice.

## Left out

- Mixer.MixInto: treats every byte as one sample. The device is opened as `AUDIO_S16` (audio.cpp:27), so `SDL_MixAudio` mixes 16-bit samples, and an output byte depends on both bytes of its sample through carry and saturation. The byte-`k`-with-byte-`k` pairing that `MixInto`, `Sounds.Sound.Mix`, `Sounds.Sound.Loop`, `Sounds.PlaybackInfo.Play` and `Audio.AudioManager.MixAudio` state holds for the library only per 2-byte sample, and only when the window edges (0, `mLength`, `length`) fall on sample boundaries. `Mixer.MixByte` is a per-byte stand-in for the library's saturating volume-scaled addition, not its rule.
- Sounds.Sound.Mix: requires `0 <= volume`, not the source's `volume > 0` assertion, because volume 0 is reachable through the manager (see Findings). It also requires `position <= mLength`: the source's own assertion after clamping needs it, and every cursor the engine creates keeps it.
- Sounds.Sound.Loop: requires `0 <= volume` for the same reason as `Mix`. It also requires a non-empty waveform, because on an empty one the source loops forever (see Findings).
- Sounds.PlaybackInfo.Play: skips looping mixing for an empty waveform, where the source would hang (see Findings).
- Audio.AudioManager.AdjustVolume: adds the increment without 32-bit overflow, which is the corrected behaviour; `Audio.AdjustedVolumeAsWritten` models the overflowing sum (see Findings).
- `Sound::load`, which does WAV decoding and format conversion with `SDL_LoadWAV`, `SDL_BuildAudioCVT` and `SDL_ConvertAudio`, is foreign-library I/O. A Sound is built from the bytes a `Decoded` value carries, or construction fails with its message. The model also leaves out:
  - the filename-length and spec assertions in `load`;
  - the buffer size computed there (`mLength *= len_mult`, where the converted length is `len_cvt`).
- Opening the SDL audio device in the `AudioManager` constructor is I/O. Its outcome is the constructor parameter `deviceOpened`. In the source a failed set-up throws out of the constructor. The model keeps the "not loaded" state reachable so that the silent paths of `load` and `mixAudio` can be stated.
- `pause` only forwards to the device, so it is not modelled.
- `audioCallback` only forwards to `mixAudio`, so it is not modelled.
- The destructor's locking, deletion and device close are not modelled; memory is not modelled.
- Concurrency between the callback thread and the control thread is not modelled, including the "thread-safe" remark on `stop(filename)`. Every operation runs sequentially.
- Positions and lengths are unbounded integers. The source's `int` and `Uint32` widths never matter for in-range positions. Only `adjustVolume`'s sum is modelled with 32-bit wrap-around, because there it changes the result.
- `Audio.AudioManager.StopByName` returns without stopping anything when no cursor comes back from `load`. That happens only when the device is not loaded and decoding fails; there the source dereferences a null pointer. In the source that path is unreachable, because a manager whose device fails to open throws out of its constructor (audio.cpp:22, 36) before `mLoaded` is set (audio.cpp:41), so no caller ever holds such a manager; it is therefore not listed under Findings.
- Rendering, sprites, textures, game entities, the environment loop and the interactive test drivers are not part of this model.

## Findings

| source | as written | input that shows it | evidently intended | confidence | as-written member | corrected member |
|---|---|---|---|---|---|---|
| sound.cpp:92 | `mix` and `loop` assert `volume > 0`, while `setVolume` accepts 0 and `adjustVolume` clamps to 0 | thirteen `adjustVolume(-5)` calls from the default volume 64, then a callback with any active cursor | a muted volume mixes silence instead of failing the assertion | not executed | `Audio.MinusKeyReachesMute` | `Audio.MuteMixesSilence` |
| sound.cpp:122-145 | `loop` on an empty waveform mixes 0 bytes per pass and never leaves its `for` loop | `play(name, true)` on a WAV file with no sample data, then one callback with `length > 0` | an empty looping sound contributes nothing and the callback returns | not executed | `Sounds.EmptySoundLoopStalls` | `Sounds.PlaybackInfo.Play` |
| audio.cpp:129 | `mVolume += increment` overflows `int` before the clamp (undefined behaviour; the model assumes two's-complement wrap-around) | `adjustVolume(2147483647)` from the default volume 64 | a large positive increment saturates at `SDL_MIX_MAXVOLUME - 1` | not executed | `Audio.AdjustVolumeOverflowMutes` | `Audio.ClampVolume` |
