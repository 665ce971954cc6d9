/** The bit encoder: every byte becomes eight RMT commands, least significant
    bit first, `OneBit` for a set bit and `ZeroBit` for a clear one
    (Program.cs `AddCommands`). A decoder is given as the encoder's inverse. */
module BitEncoder {
  import opened Rmt

  function Pow2(k: nat): (r: nat)
    ensures r >= 1
  {
    if k == 0 then 1 else 2 * Pow2(k - 1)
  }

  /** Bit `k` of `x`, counting from the least significant bit. */
  function Bit(x: nat, k: nat): bool {
    if k == 0 then x % 2 == 1 else Bit(x / 2, k - 1)
  }

  /** Bitwise AND of two non-negative integers (C# `&`). */
  function And(a: nat, b: nat): (r: nat)
    ensures r <= a && r <= b
    decreases a
  {
    if a == 0 || b == 0 then 0
    else 2 * And(a / 2, b / 2) + (if a % 2 == 1 && b % 2 == 1 then 1 else 0)
  }

  /** The value of the loop's byte-typed `mask` after `k` executions of
      `mask <<= 1`: the shift is truncated back to eight bits. */
  function Mask(k: nat): byte {
    if k == 0 then 0x01 else (Mask(k - 1) * 2) % 0x100
  }

  /** The symbol that carries one bit. */
  function SymbolFor(bit: bool): Symbol {
    if bit then OneBit else ZeroBit
  }

  /** The `n` low bits of `x` as symbols, least significant first. */
  function BitSymbols(x: nat, n: nat): (r: seq<Symbol>)
    ensures |r| == n
  {
    if n == 0 then [] else [SymbolFor(x % 2 == 1)] + BitSymbols(x / 2, n - 1)
  }

  /** The eight symbols that carry one byte. */
  function EncodeByte(b: byte): (r: seq<Symbol>)
    ensures |r| == 8
  {
    BitSymbols(b, 8)
  }

  /** The symbols that carry a byte sequence: one group of eight per byte. */
  function Enc(s: seq<byte>): (r: seq<Symbol>)
    ensures |r| == 8 * |s|
  {
    if |s| == 0 then [] else EncodeByte(s[0]) + Enc(s[1..])
  }

  /** What `AddCommands(data, start, end)` appends when it does not throw. */
  function EncRange(data: seq<byte>, start: int, end: int): seq<Symbol>
    requires InRange(data, start, end)
  {
    Enc(Visited(data, start, end))
  }

  /* ----- decoding ----- */

  function BitOf(s: Symbol): Option<bool> {
    if s == OneBit then Some(true) else if s == ZeroBit then Some(false) else None
  }

  /** The number whose bits, least significant first, the symbols carry. */
  function BitsValue(syms: seq<Symbol>): (r: Option<nat>)
    ensures r.Some? ==> r.value < Pow2(|syms|)
  {
    if |syms| == 0 then Some(0)
    else match (BitOf(syms[0]), BitsValue(syms[1..]))
      case (Some(bit), Some(v)) => Some((if bit then 1 else 0) + 2 * v)
      case _ => None
  }

  function DecodeByte(syms: seq<Symbol>): (r: Option<byte>)
    requires |syms| == 8
  {
    match BitsValue(syms)
    case Some(v) => assert Pow2(8) == 0x100; Some(v)
    case None => None
  }

  /** Reads groups of eight symbols back into bytes. */
  function Decode(syms: seq<Symbol>): (r: Option<seq<byte>>)
    ensures r.Some? ==> 8 * |r.value| == |syms|
    decreases |syms|
  {
    if |syms| == 0 then Some([])
    else if |syms| < 8 then None
    else match (DecodeByte(syms[..8]), Decode(syms[8..]))
      case (Some(b), Some(rest)) => Some([b] + rest)
      case _ => None
  }

  /* ----- the loops of AddCommands ----- */

  /** The inner loop of `AddCommands`: `mask` runs 0x01, 0x02, ..., 0x80 and
      then wraps to 0, so the loop appends exactly eight symbols. */
  method AppendByte(cmds: seq<Symbol>, b: byte) returns (out: seq<Symbol>, iterations: nat)
    ensures out == cmds + EncodeByte(b)
    ensures iterations == 8
  {
    MaskWraps();
    EncodeByteBits(b);
    out := cmds;
    iterations := 0;
    var mask: byte := 0x01;
    while mask > 0x00 && mask < 0xFF
      invariant iterations <= 8
      invariant mask == Mask(iterations)
      invariant out == cmds + EncodeByte(b)[..iterations]
      decreases 8 - iterations
    {
      AndPow2(b, iterations);
      if And(b, mask) > 0 {
        out := out + [OneBit];
      } else {
        out := out + [ZeroBit];
      }
      assert EncodeByte(b)[..iterations + 1] == EncodeByte(b)[..iterations] + [EncodeByte(b)[iterations]];
      mask := (mask * 2) % 0x100;
      iterations := iterations + 1;
    }
    assert EncodeByte(b)[..8] == EncodeByte(b);
  }

  /** `AddCommands(data, start, end)`: appends the symbols of
      `data[start..end)` to the command list, or throws at the first index
      outside `data`. Nothing already in the list changes. */
  method AddCommands(cmds: seq<Symbol>, data: seq<byte>, start: int, end: int)
    returns (r: Result<seq<Symbol>>)
    ensures r.Ok? <==> InRange(data, start, end)
    ensures r.Ok? ==> r.value == cmds + EncRange(data, start, end)
    ensures r.IndexOutOfRange? ==> r.index == FirstBadIndex(data, start)
  {
    var out := cmds;
    var i := start;
    while i < end
      invariant start <= i <= if start < end then end else start
      invariant InRange(data, start, i)
      invariant out == cmds + EncRange(data, start, i)
    {
      if i < 0 || i >= |data| {
        FirstBadIndexReached(data, start, i, end);
        return IndexOutOfRange(i);
      }
      var b := data[i];
      var iterations;
      ghost var before := EncRange(data, start, i);
      out, iterations := AppendByte(out, b);
      EncRangeStep(data, start, i);
      assert out == cmds + (before + EncodeByte(b));
      i := i + 1;
    }
    return Ok(out);
  }

  /* ----- lemmas ----- */

  /** The first index a range loop cannot read is `FirstBadIndex`, and a
      range that contains it is not `InRange`. */
  lemma FirstBadIndexReached(data: seq<byte>, start: int, i: int, end: int)
    requires start <= i < end && InRange(data, start, i)
    requires i < 0 || i >= |data|
    ensures i == FirstBadIndex(data, start)
    ensures !InRange(data, start, end)
  {
  }

  lemma MaskWraps()
    ensures forall k :: 0 <= k < 8 ==> Mask(k) == Pow2(k) && 0x00 < Mask(k) < 0xFF
    ensures Mask(8) == 0
  {
    assert Mask(1) == 2 && Mask(2) == 4 && Mask(3) == 8 && Mask(4) == 16;
    assert Mask(5) == 32 && Mask(6) == 64 && Mask(7) == 128;
    assert Pow2(7) == 128;
  }

  lemma {:induction false} AndPow2(x: nat, k: nat)
    ensures And(x, Pow2(k)) > 0 <==> Bit(x, k)
  {
    if k == 0 {
      assert x > 0 ==> And(x / 2, 0) == 0;
    } else if x == 0 {
      AndPow2(0, k - 1);
    } else {
      assert Pow2(k) / 2 == Pow2(k - 1) && Pow2(k) % 2 == 0;
      AndPow2(x / 2, k - 1);
    }
  }

  lemma {:induction false} BitSymbolsAt(x: nat, n: nat)
    ensures forall k :: 0 <= k < n ==> BitSymbols(x, n)[k] == SymbolFor(Bit(x, k))
  {
    if n > 0 {
      BitSymbolsAt(x / 2, n - 1);
    }
  }

  /** Bit order within a byte: symbol `k` is `OneBit` exactly when bit `k`
      is set, and `ZeroBit` otherwise. */
  lemma EncodeByteBits(b: byte)
    ensures forall k :: 0 <= k < 8 ==> EncodeByte(b)[k] == SymbolFor(Bit(b, k))
  {
    BitSymbolsAt(b, 8);
  }

  /** Bit order: symbol `8*i + k` of the encoding carries bit `k` of byte `i`. */
  lemma {:induction false} EncAt(s: seq<byte>, i: nat, k: nat)
    requires i < |s| && k < 8
    ensures Enc(s)[8 * i + k] == SymbolFor(Bit(s[i], k))
  {
    if i > 0 {
      EncAt(s[1..], i - 1, k);
    } else {
      EncodeByteBits(s[0]);
      assert Enc(s)[k] == EncodeByte(s[0])[k];
    }
  }

  /** The encoding consists of bit symbols only. */
  lemma {:induction false} EncBitSymbols(s: seq<byte>)
    ensures forall i :: 0 <= i < |Enc(s)| ==> Enc(s)[i] == OneBit || Enc(s)[i] == ZeroBit
  {
    if |s| > 0 {
      EncBitSymbols(s[1..]);
      EncodeByteBits(s[0]);
      forall i | 0 <= i < |Enc(s)|
        ensures Enc(s)[i] == OneBit || Enc(s)[i] == ZeroBit
      {
        if i < 8 {
          assert Enc(s)[i] == EncodeByte(s[0])[i];
        } else {
          assert Enc(s)[i] == Enc(s[1..])[i - 8];
        }
      }
    }
  }

  /** Encoding a concatenation encodes the two parts back to back. */
  lemma {:induction false} EncAppend(a: seq<byte>, b: seq<byte>)
    ensures Enc(a + b) == Enc(a) + Enc(b)
  {
    if |a| > 0 {
      assert (a + b)[1..] == a[1..] + b;
      EncAppend(a[1..], b);
    } else {
      assert a + b == b;
    }
  }

  /** A one-byte array encodes to that byte's eight symbols. */
  lemma EncOne(b: byte)
    ensures EncRange([b], 0, 1) == EncodeByte(b)
  {
  }

  /** Extending a range by one byte appends that byte's eight symbols. */
  lemma EncRangeStep(data: seq<byte>, start: int, i: int)
    requires 0 <= start <= i < |data|
    ensures EncRange(data, start, i + 1) == EncRange(data, start, i) + EncodeByte(data[i])
  {
    EncAppend(Visited(data, start, i), [data[i]]);
    assert Visited(data, start, i + 1) == Visited(data, start, i) + [data[i]];
    assert Enc([data[i]]) == EncodeByte(data[i]) + Enc([]);
  }

  /** Encoding `[start, end)` is encoding `[start, mid)` and then `[mid, end)`. */
  lemma EncRangeSplit(data: seq<byte>, start: int, mid: int, end: int)
    requires 0 <= start <= mid <= end <= |data|
    ensures EncRange(data, start, end) == EncRange(data, start, mid) + EncRange(data, mid, end)
  {
    assert Visited(data, start, end) == Visited(data, start, mid) + Visited(data, mid, end);
    EncAppend(Visited(data, start, mid), Visited(data, mid, end));
  }

  lemma {:induction false} BitsValueOfBitSymbols(x: nat, n: nat)
    requires x < Pow2(n)
    ensures BitsValue(BitSymbols(x, n)) == Some(x)
  {
    if n > 0 {
      BitsValueOfBitSymbols(x / 2, n - 1);
      assert BitSymbols(x, n)[1..] == BitSymbols(x / 2, n - 1);
    }
  }

  lemma {:induction false} BitSymbolsOfBitsValue(syms: seq<Symbol>, v: nat)
    requires BitsValue(syms) == Some(v)
    ensures BitSymbols(v, |syms|) == syms
  {
    if |syms| > 0 {
      var w := BitsValue(syms[1..]).value;
      BitSymbolsOfBitsValue(syms[1..], w);
      assert v / 2 == w;
      assert [syms[0]] + syms[1..] == syms;
    }
  }

  /** The eight symbols of a byte determine the byte. */
  lemma DecodeEncodeByte(b: byte)
    ensures DecodeByte(EncodeByte(b)) == Some(b)
  {
    assert Pow2(8) == 0x100;
    BitsValueOfBitSymbols(b, 8);
  }

  /** Round trip: decoding an encoding gives the bytes back. */
  lemma {:induction false} DecodeEnc(s: seq<byte>)
    ensures Decode(Enc(s)) == Some(s)
  {
    if |s| > 0 {
      var e := Enc(s);
      assert e[..8] == EncodeByte(s[0]);
      assert e[8..] == Enc(s[1..]);
      DecodeEncodeByte(s[0]);
      DecodeEnc(s[1..]);
      assert [s[0]] + s[1..] == s;
    }
  }

  /** The other direction: whatever decodes to `s` is the encoding of `s`. */
  lemma {:induction false} EncDecode(syms: seq<Symbol>, s: seq<byte>)
    requires Decode(syms) == Some(s)
    ensures Enc(s) == syms
  {
    if |syms| > 0 {
      var v := BitsValue(syms[..8]).value;
      BitSymbolsOfBitsValue(syms[..8], v);
      EncDecode(syms[8..], s[1..]);
      assert syms[..8] + syms[8..] == syms;
    }
  }

  /** Different byte sequences never share an encoding. */
  lemma EncInjective(a: seq<byte>, b: seq<byte>)
    requires Enc(a) == Enc(b)
    ensures a == b
  {
    DecodeEnc(a);
    DecodeEnc(b);
  }
}
