/** Frame assembly: the command list `Main` builds before its send loop
    (Program.cs lines 72-83) — header, frame 1, pause, header, frame 2 body,
    computed checksum byte, end marker — and a parser that inverts it. */
module Transmission {
  import opened Rmt
  import opened BitEncoder
  import opened Crc

  /** The fixed air-conditioner command: 8 bytes of frame 1, 18 bytes of
      frame 2 body, and the stored checksum 0x7E at index 26. */
  const StartingData: seq<byte> := [
    0x40, 0x04, 0x07, 0x20, 0x00, 0x00, 0x00, 0x60,
    0x02, 0x20, 0xE0, 0x04, 0x00, 0x38, 0x20, 0x80,
    0x31, 0x00, 0x00, 0x0E, 0xE0, 0x00, 0x00, 0x81,
    0x00, 0x00,
    0x7E
  ]

  /** Frame 2 as transmitted from the payload: bytes 8 up to, not including,
      the last one (the checksum slot). Empty for a payload of 8 or 9 bytes. */
  function Body(data: seq<byte>): seq<byte>
    requires |data| >= 8
  {
    Visited(data, 8, |data| - 1)
  }

  /** The command list built for `data`, as a reference definition. */
  function Frame(data: seq<byte>): seq<Symbol>
    requires |data| >= 8
  {
    [Header] + Enc(data[..8]) + [Pause, Header]
      + Enc(Body(data)) + EncodeByte(Checksum(Body(data))) + [End]
  }

  /** `Main` lines 72-83 for an arbitrary payload: clear the command list and
      append the two frames. Only frame 1 can index outside a short payload. */
  method BuildCommands(data: seq<byte>) returns (r: Result<seq<Symbol>>)
    ensures r.Ok? <==> |data| >= 8
    ensures r.Ok? ==> r.value == Frame(data)
    ensures r.IndexOutOfRange? ==> r.index == |data|
  {
    var cmds: seq<Symbol> := [];
    cmds := cmds + [Header];
    var frame1 := AddCommands(cmds, data, 0, 8);
    if frame1.IndexOutOfRange? {
      return IndexOutOfRange(frame1.index);
    }
    cmds := frame1.value + [Pause];
    cmds := cmds + [Header];
    var frame2 := AddCommands(cmds, data, 8, |data| - 1);
    var crc := CalcCrc(data, 8, |data| - 1);
    if frame2.IndexOutOfRange? || crc.IndexOutOfRange? {
      assert false;
      return IndexOutOfRange(0);
    }
    var withCrc := AddCommands(frame2.value, [crc.value], 0, 1);
    if withCrc.IndexOutOfRange? {
      assert false;
      return IndexOutOfRange(0);
    }
    assert Visited(data, 0, 8) == data[..8];
    assert frame1.value == [Header] + Enc(data[..8]);
    assert frame2.value == [Header] + Enc(data[..8]) + [Pause, Header] + Enc(Body(data));
    assert crc.value == Checksum(Body(data));
    EncOne(crc.value);
    return Ok(withCrc.value + [End]);
  }

  /** `Main` for the literal payload: the 220-symbol command list it sends. */
  method PrepareTransmission() returns (cmds: seq<Symbol>)
    ensures |cmds| == 220
    ensures cmds[0] == Header && cmds[|cmds| - 1] == End
    ensures cmds == [Header] + Enc(StartingData[..8]) + [Pause, Header] + Enc(StartingData[8..]) + [End]
  {
    var r := BuildCommands(StartingData);
    StartingFrame();
    cmds := r.value;
  }

  /* ----- parsing ----- */

  /** The decoded contents of a two-frame transmission. */
  datatype Frames = Frames(first: seq<byte>, second: seq<byte>)

  /** A transmission whose frame 1 has the fixed 8 bytes and whose frame 2
      ends in the checksum of the bytes before it. */
  predicate ValidFrames(f: Frames) {
    |f.first| == 8 && |f.second| >= 1
      && f.second[|f.second| - 1] == Checksum(f.second[..|f.second| - 1])
  }

  /** Reads a command list back into its two frames' bytes (frame 2 with its
      trailing checksum byte), or `None` if it has not the two-frame shape. */
  function ParseFrame(syms: seq<Symbol>): (r: Option<Frames>)
    ensures r.Some? ==> |r.value.first| == 8 && |r.value.second| >= 1
  {
    if |syms| < 76 || syms[0] != Header || syms[65] != Pause || syms[66] != Header
      || syms[|syms| - 1] != End
    then None
    else match (Decode(syms[1..65]), Decode(syms[67..|syms| - 1]))
      case (Some(a), Some(b)) => Some(Frames(a, b))
      case _ => None
  }

  /* ----- lemmas ----- */

  /** The layout of the command list: where the headers, the pause, the
      end marker and the bits of every byte sit. */
  lemma FrameLayout(data: seq<byte>)
    requires |data| >= 8
    ensures |Frame(data)| == 76 + 8 * |Body(data)|
    ensures Frame(data)[0] == Header && Frame(data)[65] == Pause && Frame(data)[66] == Header
    ensures Frame(data)[|Frame(data)| - 1] == End
    ensures forall i, k :: 0 <= i < 8 && 0 <= k < 8 ==>
      Frame(data)[1 + 8 * i + k] == SymbolFor(Bit(data[i], k))
    ensures forall i, k :: 0 <= i < |Body(data)| && 0 <= k < 8 ==>
      Frame(data)[67 + 8 * i + k] == SymbolFor(Bit(Body(data)[i], k))
    ensures forall k :: 0 <= k < 8 ==>
      Frame(data)[67 + 8 * |Body(data)| + k] == SymbolFor(Bit(Checksum(Body(data)), k))
  {
    var f := Frame(data);
    var n := |Body(data)|;
    EncodeByteBits(Checksum(Body(data)));
    forall i, k | 0 <= i < 8 && 0 <= k < 8
      ensures f[1 + 8 * i + k] == SymbolFor(Bit(data[i], k))
    {
      EncAt(data[..8], i, k);
    }
    forall i, k | 0 <= i < n && 0 <= k < 8
      ensures f[67 + 8 * i + k] == SymbolFor(Bit(Body(data)[i], k))
    {
      EncAt(Body(data), i, k);
    }
  }

  /** Every symbol of the command list has the carrier on during its mark,
      off during its space, and a 432-tick mark unless it is a header. */
  lemma FrameWellFormed(data: seq<byte>)
    requires |data| >= 8
    ensures forall i :: 0 <= i < |Frame(data)| ==> WellFormed(Frame(data)[i])
  {
    var f := Frame(data);
    var a := Enc(data[..8]);
    var b := Enc(Body(data) + [Checksum(Body(data))]);
    SecondFrame(data);
    Pieces(Header, a, Pause, Header, b, End);
    EncBitSymbols(data[..8]);
    EncBitSymbols(Body(data) + [Checksum(Body(data))]);
    forall i | 0 <= i < |f|
      ensures WellFormed(f[i])
    {
      if 1 <= i < 65 {
        assert f[i] == f[1..65][i - 1] == a[i - 1];
      } else if 67 <= i < |f| - 1 {
        assert f[i] == f[67..|f| - 1][i - 67] == b[i - 67];
      }
    }
  }

  /** Where the pieces of a two-frame list sit. */
  lemma Pieces<T>(h: T, a: seq<T>, p: T, q: T, b: seq<T>, e: T)
    ensures var s := [h] + a + [p, q] + b + [e];
      s[0] == h && s[1..|a| + 1] == a && s[|a| + 1] == p && s[|a| + 2] == q
      && s[|a| + 3..|s| - 1] == b && s[|s| - 1] == e
  {
  }

  /** Frame 2 as sent is the encoding of its body followed by the checksum. */
  lemma SecondFrame(data: seq<byte>)
    requires |data| >= 8
    ensures Frame(data) == [Header] + Enc(data[..8]) + [Pause, Header]
      + Enc(Body(data) + [Checksum(Body(data))]) + [End]
  {
    var c := Checksum(Body(data));
    EncAppend(Body(data), [c]);
    assert Enc([c]) == EncodeByte(c) + Enc([]);
  }

  /** Round trip: parsing the command list built for a payload gives back
      frame 1, frame 2's body and the computed checksum, and they are valid. */
  lemma ParseFrameOfFrame(data: seq<byte>)
    requires |data| >= 8
    ensures ParseFrame(Frame(data)) == Some(Frames(data[..8], Body(data) + [Checksum(Body(data))]))
    ensures ValidFrames(Frames(data[..8], Body(data) + [Checksum(Body(data))]))
  {
    var second := Body(data) + [Checksum(Body(data))];
    SecondFrame(data);
    Pieces(Header, Enc(data[..8]), Pause, Header, Enc(second), End);
    DecodeEnc(data[..8]);
    DecodeEnc(second);
    assert second[..|second| - 1] == Body(data);
  }

  /** A command list that parses is the two frames' encodings between the
      fixed markers. */
  lemma ParsedShape(syms: seq<Symbol>, fr: Frames)
    requires ParseFrame(syms) == Some(fr)
    ensures syms == [Header] + Enc(fr.first) + [Pause, Header] + Enc(fr.second) + [End]
  {
    var a, b := syms[1..65], syms[67..|syms| - 1];
    EncDecode(a, fr.first);
    EncDecode(b, fr.second);
    Reassemble(syms, 64);
  }

  /** A list of at least `n + 4` elements split as the two-frame shape. */
  lemma Reassemble<T>(s: seq<T>, n: nat)
    requires n + 4 <= |s|
    ensures s == [s[0]] + s[1..n + 1] + [s[n + 1], s[n + 2]] + s[n + 3..|s| - 1] + [s[|s| - 1]]
  {
  }

  /** The converse: a command list that parses into valid frames is exactly
      the one built for the payload those frames spell out. */
  lemma FrameOfParseFrame(syms: seq<Symbol>, fr: Frames)
    requires ParseFrame(syms) == Some(fr) && ValidFrames(fr)
    ensures syms == Frame(fr.first + fr.second)
  {
    var data := fr.first + fr.second;
    var m := |fr.second| - 1;
    ParsedShape(syms, fr);
    assert data[..8] == fr.first;
    assert Body(data) == fr.second[..m];
    assert fr.second == fr.second[..m] + [fr.second[m]];
    SecondFrame(data);
  }

  /** For the literal payload the computed checksum of bytes 8..25 is 0x7E,
      the byte stored at index 26, so the checksum slot is sent unchanged. */
  lemma StartingDataChecksum()
    ensures |StartingData| == 27 && |Body(StartingData)| == 18
    ensures Checksum(Body(StartingData)) == 0x7E == StartingData[26]
  {
    var b := Body(StartingData);
    assert b == [0x02, 0x20, 0xE0, 0x04, 0x00, 0x38, 0x20, 0x80,
                 0x31, 0x00, 0x00, 0x0E, 0xE0, 0x00, 0x00, 0x81, 0x00, 0x00];
    SumStep(b, 0); assert Sum(b[..1]) == 2;
    SumStep(b, 1); assert Sum(b[..2]) == 34;
    SumStep(b, 2); assert Sum(b[..3]) == 258;
    SumStep(b, 3); assert Sum(b[..4]) == 262;
    SumStep(b, 4); assert Sum(b[..5]) == 262;
    SumStep(b, 5); assert Sum(b[..6]) == 318;
    SumStep(b, 6); assert Sum(b[..7]) == 350;
    SumStep(b, 7); assert Sum(b[..8]) == 478;
    SumStep(b, 8); assert Sum(b[..9]) == 527;
    SumStep(b, 9); assert Sum(b[..10]) == 527;
    SumStep(b, 10); assert Sum(b[..11]) == 527;
    SumStep(b, 11); assert Sum(b[..12]) == 541;
    SumStep(b, 12); assert Sum(b[..13]) == 765;
    SumStep(b, 13); assert Sum(b[..14]) == 765;
    SumStep(b, 14); assert Sum(b[..15]) == 765;
    SumStep(b, 15); assert Sum(b[..16]) == 894;
    SumStep(b, 16); assert Sum(b[..17]) == 894;
    SumStep(b, 17); assert Sum(b[..18]) == 894;
    assert b[..18] == b;
  }

  /** When the payload's last byte already holds the checksum of frame 2's
      body, the command list sends the payload exactly as stored. */
  lemma FrameOfStoredChecksum(data: seq<byte>)
    requires |data| >= 9 && data[|data| - 1] == Checksum(Body(data))
    ensures Frame(data) == [Header] + Enc(data[..8]) + [Pause, Header] + Enc(data[8..]) + [End]
  {
    SecondFrame(data);
    assert data[8..] == Body(data) + [Checksum(Body(data))];
  }

  /** The command list for the literal payload: 220 symbols, from a header to
      the end marker, equal to sending all 27 stored bytes as they are. */
  lemma StartingFrame()
    ensures |Frame(StartingData)| == 220
    ensures Frame(StartingData)[0] == Header && Frame(StartingData)[219] == End
    ensures Frame(StartingData)
      == [Header] + Enc(StartingData[..8]) + [Pause, Header] + Enc(StartingData[8..]) + [End]
  {
    StartingDataChecksum();
    FrameOfStoredChecksum(StartingData);
  }
}
