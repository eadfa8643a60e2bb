/** The pieces of the audio library that the mixing engine calls but does not own:
    the byte type of a PCM stream, the library's maximum volume, and the primitive
    that mixes a block of source bytes into a destination buffer. */
module Mixer {

  /** One byte of a PCM stream (`Uint8`). */
  newtype uint8 = x: int | 0 <= x < 0x100

  /** SDL_MIX_MAXVOLUME: volumes passed to the mixer lie below this bound. */
  const MaxVolume: int := 128

  /** The volumes the mixer accepts and the manager may hold: `0 <= volume < MaxVolume`. */
  predicate ValidVolume(volume: int)
  {
    0 <= volume < MaxVolume
  }

  datatype Option<T> = None | Some(value: T)

  /** Stand-in for the library's mixing rule, treating each byte as one sample: the source
      byte, scaled by `volume / MaxVolume`, is added to the destination byte and the sum
      saturates. The device format mixes 16-bit samples instead, so a real output byte
      depends on both bytes of its sample. */
  function MixByte(dst: uint8, src: uint8, volume: int): uint8
  {
    var sum := dst as int + (src as int * volume) / MaxVolume;
    if sum < 0 then 0 else if sum > 0xFF then 0xFF else sum as uint8
  }

  /** The byte that results from mixing one optional contribution into `dst`: a cursor
      that contributes nothing at this offset leaves the byte as it was. */
  function MixOne(dst: uint8, contribution: Option<uint8>, volume: int): uint8
  {
    match contribution
    case None => dst
    case Some(s) => MixByte(dst, s, volume)
  }

  /** SDL_MixAudio(dest + offset, src, |src|, volume), one byte per sample: mixes every
      byte of `src` into the window `dest[offset .. offset + |src|)` and writes nothing
      outside that window. */
  method MixInto(dest: array<uint8>, offset: nat, src: seq<uint8>, volume: int)
    requires offset + |src| <= dest.Length
    modifies dest
    ensures forall k :: 0 <= k < |src| ==> dest[offset + k] == MixByte(old(dest[offset + k]), src[k], volume)
    ensures forall k :: 0 <= k < offset ==> dest[k] == old(dest[k])
    ensures forall k :: offset + |src| <= k < dest.Length ==> dest[k] == old(dest[k])
  {
    var i := 0;
    while i < |src|
      invariant 0 <= i <= |src|
      invariant forall k :: 0 <= k < i ==> dest[offset + k] == MixByte(old(dest[offset + k]), src[k], volume)
      invariant forall k :: 0 <= k < offset ==> dest[k] == old(dest[k])
      invariant forall k :: offset + i <= k < dest.Length ==> dest[k] == old(dest[k])
    {
      dest[offset + i] := MixByte(dest[offset + i], src[i], volume);
      i := i + 1;
    }
  }
}
