/** The data the infrared sender works with: bytes, the timed pulse/space
    commands of the ESP32 RMT transmitter, the five protocol symbols of the
    Panasonic air-conditioner protocol, and the outcome of a loop that
    indexes a byte array. */
module Rmt {

  /** An unsigned 8-bit value (C# `byte`). */
  type byte = x: int | 0 <= x < 0x100

  /** An unsigned 16-bit value (C# `ushort`), the width of an RMT duration. */
  type ushort = x: int | 0 <= x < 0x1_0000

  /** One RMT command: the carrier is driven at `markLevel` for `markTicks`
      clock ticks, then at `spaceLevel` for `spaceTicks` ticks. */
  datatype Symbol = Symbol(markTicks: ushort, markLevel: bool, spaceTicks: ushort, spaceLevel: bool)

  const HeaderPulse: ushort := 3468
  const HeaderSpace: ushort := 1767
  const Pulse: ushort := 432
  const ZeroSpace: ushort := 432
  const OneSpace: ushort := 1296
  const PauseSpace: ushort := 10000

  const Header := Symbol(HeaderPulse, true, HeaderSpace, false)
  const ZeroBit := Symbol(Pulse, true, ZeroSpace, false)
  const OneBit := Symbol(Pulse, true, OneSpace, false)
  const Pause := Symbol(Pulse, true, PauseSpace, false)
  const End := Symbol(Pulse, true, 0, false)

  /** The shape every protocol symbol has: carrier on during the mark, off
      during the space, and a standard-length mark except for the header. */
  predicate WellFormed(s: Symbol) {
    s.markLevel && !s.spaceLevel && (s.markTicks == Pulse || s == Header)
  }

  datatype Option<+T> = None | Some(value: T)

  /** The outcome of a loop that reads `data[i]`: either its value, or the
      first index at which the array access throws. */
  datatype Result<+T> = Ok(value: T) | IndexOutOfRange(index: int)

  /** True when `for (i = start; i < end; i++) data[i]` reads only indices
      inside `data`; the loop reads nothing at all when `start >= end`. */
  predicate InRange<T>(data: seq<T>, start: int, end: int) {
    start >= end || (0 <= start && end <= |data|)
  }

  /** The elements such a loop reads, in order. */
  function Visited<T>(data: seq<T>, start: int, end: int): (r: seq<T>)
    requires InRange(data, start, end)
    ensures |r| == if start < end then end - start else 0
  {
    if start >= end then [] else data[start..end]
  }

  /** The index at which such a loop throws when it is not `InRange`: the
      first one it reads, unless that one is fine, in which case `|data|`. */
  function FirstBadIndex<T>(data: seq<T>, start: int): int {
    if 0 <= start <= |data| then |data| else start
  }
}
