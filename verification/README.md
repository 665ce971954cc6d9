# Panasonic air-conditioner IR frame encoder — Dafny model

The program drives an ESP32 RMT (remote control) transmitter channel to send a
fixed command to a Panasonic air conditioner. Its core is a pure encoder. It
turns a byte payload into a list of timed RMT commands. Each command is a mark
(carrier on) of some ticks followed by a space (carrier off) of some ticks.
The list has this shape:

    Header, frame 1 (bytes 0..8), Pause, Header,
    frame 2 body (bytes 8..|payload|-1), checksum byte, End

Every byte becomes eight commands, least significant bit first: `OneBit`
(432/1296 ticks) for a set bit, `ZeroBit` (432/432) for a clear one. The
checksum is the 8-bit wrap-around sum of the frame 2 body.

Modules:

- `Rmt` (`rmt.dfy`): bytes, the `Symbol` command datatype, the five protocol
  symbols and their tick constants, and the `Result` of a loop that indexes an
  array (`IndexOutOfRange` models C#'s exception).
- `BitEncoder` (`encoder.dfy`): the reference encoding `Enc`, its inverse
  `Decode`, and the two nested loops of `AddCommands` as methods. The inner
  loop uses a byte-typed mask that wraps from 0x80 to 0.
- `Crc` (`checksum.dfy`): `Sum`/`Checksum`, and the `CalcCrc` loop with its
  truncating `+=`.
- `Transmission` (`frame.dfy`): the literal payload, the reference `Frame`,
  the command-building sequence of `Main` as `BuildCommands`, and a parser
  `ParseFrame` that inverts it.

The RMT channel's command list is modelled as a `seq<Symbol>`. Each step
returns the list with new commands appended. Bytes are integers in
`0..255`. Wrap-around is written out as `% 0x100`, both for `mask <<= 1`
and for `crc += data[i]`. C#'s `&` on the byte and the mask is modelled by a
bitwise-AND function on naturals.

The payload in the code has 27 bytes: 8 for frame 1, 18 for the frame 2 body,
and the stored checksum 0x7E at index 26. The command list therefore has 220
symbols. A 26-byte payload with a 212-symbol list has also been described for
this program. The model follows the code.

## Model

| member | source | states |
|---|---|---|
| BitEncoder.MaskWraps | Program.cs:100 | the byte mask takes the values 0x01, 0x02, ..., 0x80 (each passing `mask > 0 && mask < 0xFF`), and after the eighth `<<= 1` it wraps to 0, which ends the loop |
| BitEncoder.AndPow2 | Program.cs:102 | `(b & mask) > 0` with mask `2^k` holds exactly when bit k of b is set |
| BitEncoder.AppendByte | Program.cs:99-110 | the inner mask loop runs exactly 8 times and appends the byte's eight bit symbols, least significant first, after the existing commands |
| BitEncoder.AddCommands | Program.cs:95-112 | succeeds exactly when every index in [start, end) is inside the data; then the old list is kept and followed by the encoding of data[start..end) (nothing when start >= end); otherwise it fails at the first index outside the data |
| BitEncoder.EncodeByteBits | Program.cs:100-109 | within a byte's 8 symbols, symbol k is OneBit iff bit k is set, else ZeroBit |
| BitEncoder.Enc | Program.cs:97-111 | a range of n bytes becomes exactly 8n symbols |
| BitEncoder.EncBitSymbols | Program.cs:102-109 | the encoding contains only OneBit and ZeroBit symbols |
| BitEncoder.EncAt | Program.cs:97-110 | bit order: symbol 8*i+k of the encoding carries bit k of byte i |
| BitEncoder.EncAppend | Program.cs:97-111 | encoding a concatenation is encoding the parts back to back |
| BitEncoder.EncRangeSplit | Program.cs:97-111 | enc(a, c) == enc(a, b) + enc(b, c) for a <= b <= c inside the data |
| BitEncoder.DecodeEncodeByte | Program.cs:20-21 | OneBit and ZeroBit are distinguishable, so a byte's eight symbols decode back to the byte |
| BitEncoder.DecodeEnc | Program.cs:97-111 | decoding the encoding of any byte sequence gives the sequence back |
| BitEncoder.EncDecode | Program.cs:97-111 | any symbol list that decodes to s is the encoding of s |
| BitEncoder.EncInjective | Program.cs:97-111 | two byte sequences with the same encoding are equal |
| Crc.CalcCrc | Program.cs:114-123 | succeeds exactly when every index in [start, end) is inside the data; the result is the sum of data[start..end) mod 256 (0 for an empty range); otherwise it fails at the first index outside the data |
| Crc.SumAppend | Program.cs:117-120 | the byte sum of a concatenation is the sum of the parts |
| Crc.ChecksumAppend | Program.cs:117-120 | the checksum of a concatenation is the wrap-around sum of the parts' checksums |
| Crc.ChecksumIncrement | Program.cs:117-120 | raising one byte by 1 (mod 256) raises the checksum by 1 (mod 256) |
| Crc.ChecksumVectors | Program.cs:116-122 | an empty range gives 0 and [0xFF, 0xFF] gives 0xFE |
| Transmission.BuildCommands | Program.cs:72-83 | the command-building steps succeed exactly when the payload has at least 8 bytes; the result is the reference frame layout; a shorter payload fails at index |payload| |
| Transmission.PrepareTransmission | Program.cs:41-48 | for the literal payload the list has 220 symbols, starts with Header, ends with End, and equals all 27 stored bytes sent between the fixed markers |
| Transmission.FrameLayout | Program.cs:74-83 | Header at 0, Pause at 65, Header at 66, End last; frame 1 bits at 1+8i+k; body bits at 67+8i+k; checksum bits right after; length 76 + 8 * body length |
| Transmission.FrameWellFormed | Program.cs:19-23 | every symbol in the list has mark level true and space level false, and a 432-tick mark unless it is a Header |
| Transmission.ParseFrameOfFrame | Program.cs:74-83 | parsing the list built for a payload gives frame 1, the frame 2 body and the computed checksum, and that checksum matches the body |
| Transmission.FrameOfParseFrame | Program.cs:74-83 | a list that parses into frames with a matching checksum is exactly the list built for the payload those frames spell |
| Transmission.FrameOfStoredChecksum | Program.cs:78-81 | when the payload's last byte already holds the body's checksum, the list sends the payload unchanged |
| Transmission.StartingDataChecksum | Program.cs:41-48 | the literal payload has 27 bytes and an 18-byte frame 2 body; the body sums to 0x7E, the stored byte at index 26 |
| Transmission.StartingFrame | Program.cs:74-83 | for the literal payload the list has 220 symbols, Header first and End at 219, and equals sending the stored bytes unchanged |

## Left out

- RMT channel configuration and lifecycle (`TransmitChannelSettings`, `TransmitterChannel`, `ClearCommands`; Program.cs:52-68): these are hardware driver calls. The command list simply starts empty.
- `Send(waitTxDone: true)`, the endless `while (true)` loop and `Thread.Sleep(2000)` (Program.cs:85-92): hardware I/O and an unbounded timed loop. The model ends when the command list is built.
- `Console.WriteLine` diagnostics (Program.cs:70, 89): output only.
- The commented-out older payload (Program.cs:25-39): dead code.
- Carrier frequency, duty cycle and clock divider: physical signal settings, not logic. Tick counts are kept as plain numbers.
- BitEncoder.AddCommands: on an out-of-range index C# has already appended the symbols of the earlier bytes before it throws. The model returns only the failing index. The exception is never caught, so that partial list is never sent.
- Crc.CalcCrc: C# throws on a bad index. The model returns the failing index instead.
- The encoder is pure, so repeated calls on the same payload give the same list by construction. No lemma states this.
