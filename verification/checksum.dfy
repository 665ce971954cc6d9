/** The frame checksum: the sum of a byte range in eight-bit wrap-around
    arithmetic (Program.cs `CalcCrc`). */
module Crc {
  import opened Rmt

  /** The plain (unbounded) sum of the bytes. */
  function Sum(s: seq<byte>): nat {
    if |s| == 0 then 0 else Sum(s[..|s| - 1]) + s[|s| - 1]
  }

  /** The checksum byte of a sequence: its sum modulo 256. */
  function Checksum(s: seq<byte>): byte {
    Sum(s) % 0x100
  }

  /** `CalcCrc(data, start, end)`: a byte accumulator that starts at 0 and
      has each `data[i]` added with `+=`, which truncates to eight bits. It
      throws at the first index outside `data`. */
  method CalcCrc(data: seq<byte>, start: int, end: int) returns (r: Result<byte>)
    ensures r.Ok? <==> InRange(data, start, end)
    ensures r.Ok? ==> r.value as int == Sum(Visited(data, start, end)) % 0x100
    ensures r.IndexOutOfRange? ==> r.index == FirstBadIndex(data, start)
  {
    var crc: byte := 0x00;
    var i := start;
    while i < end
      invariant start <= i
      invariant start < end ==> i <= end
      invariant start >= end ==> i == start
      invariant InRange(data, start, i)
      invariant crc == Sum(Visited(data, start, i)) % 0x100
    {
      if i < 0 || i >= |data| {
        return IndexOutOfRange(i);
      }
      SumRangeStep(data, start, i);
      ModAdd(Sum(Visited(data, start, i)), data[i]);
      crc := (crc + data[i]) % 0x100;
      i := i + 1;
    }
    return Ok(crc);
  }

  /** Extending a loop's range by one index adds that byte to the sum. */
  lemma SumRangeStep(data: seq<byte>, start: int, i: int)
    requires 0 <= start <= i < |data|
    ensures Sum(Visited(data, start, i + 1)) == Sum(Visited(data, start, i)) + data[i]
  {
    assert Visited(data, start, i + 1)[..i - start] == Visited(data, start, i);
  }

  /** The sum of a concatenation is the sum of the parts. */
  lemma {:induction false} SumAppend(a: seq<byte>, b: seq<byte>)
    ensures Sum(a + b) == Sum(a) + Sum(b)
    decreases |b|
  {
    if |b| == 0 {
      assert a + b == a;
    } else {
      var b' := b[..|b| - 1];
      assert (a + b)[..|a + b| - 1] == a + b';
      SumAppend(a, b');
    }
  }

  /** The checksum of a concatenation is the wrap-around sum of the parts'
      checksums, so a range can be checksummed piecewise. */
  lemma ChecksumAppend(a: seq<byte>, b: seq<byte>)
    ensures Checksum(a + b) == (Checksum(a) + Checksum(b)) % 0x100
  {
    SumAppend(a, b);
    ModAdd(Sum(a), Sum(b));
  }

  /** Reducing the operands modulo 256 first does not change a sum modulo 256. */
  lemma ModAdd(x: nat, y: nat)
    ensures (x % 0x100 + y % 0x100) % 0x100 == (x + y) % 0x100
  {
    var qx, qy := x / 0x100, y / 0x100;
    assert x == 0x100 * qx + x % 0x100;
    assert y == 0x100 * qy + y % 0x100;
    assert x + y == 0x100 * (qx + qy) + (x % 0x100 + y % 0x100);
  }

  /** Replacing one byte changes the sum by the difference. */
  lemma SumUpdate(s: seq<byte>, i: nat, v: byte)
    requires i < |s|
    ensures Sum(s[i := v]) + s[i] == Sum(s) + v
  {
    var t := s[i := v];
    assert s == (s[..i] + [s[i]]) + s[i + 1..];
    assert t == (s[..i] + [v]) + s[i + 1..];
    SumAppend(s[..i] + [s[i]], s[i + 1..]);
    SumAppend(s[..i], [s[i]]);
    SumAppend(s[..i] + [v], s[i + 1..]);
    SumAppend(s[..i], [v]);
    assert Sum([s[i]]) == s[i] && Sum([v]) == v;
  }

  /** Raising one byte by one (with wrap-around) raises the checksum by one
      modulo 256. */
  lemma ChecksumIncrement(s: seq<byte>, i: nat)
    requires i < |s|
    ensures Checksum(s[i := (s[i] as int + 1) % 0x100]) == (Checksum(s) + 1) % 0x100
  {
    SumUpdate(s, i, (s[i] as int + 1) % 0x100);
  }

  /** The empty range sums to 0, and two 0xFF bytes wrap around to 0xFE. */
  lemma ChecksumVectors()
    ensures Checksum([]) == 0
    ensures Checksum([0xFF, 0xFF]) == 0xFE
  {
  }

  /** Extending a prefix by one byte adds that byte to the sum. */
  lemma SumStep(s: seq<byte>, k: nat)
    requires k < |s|
    ensures Sum(s[..k + 1]) == Sum(s[..k]) + s[k]
  {
    assert s[..k + 1][..k] == s[..k];
  }
}
