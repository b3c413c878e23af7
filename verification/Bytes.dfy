/** Bytes and the little-endian fields that the log and the page files are made of.
    `LittleEndian` truncates to its width, as a store through a narrower unsigned type does. */
module Bytes {

  type byte = x: int | 0 <= x < 256

  datatype Option<+T> = None | Some(value: T)

  /** A stored record: what a caller puts. */
  datatype Entry = Entry(key: seq<byte>, value: seq<byte>)

  const TWO_32 := 0x1_0000_0000
  const TWO_64 := 0x1_0000_0000_0000_0000

  function Power256(width: nat): (p: nat)
    ensures p > 0
  {
    if width == 0 then 1 else 256 * Power256(width - 1)
  }

  function LittleEndian(n: nat, width: nat): (b: seq<byte>)
    ensures |b| == width
  {
    if width == 0 then [] else [n % 256] + LittleEndian(n / 256, width - 1)
  }

  function FromLittleEndian(b: seq<byte>): (n: nat)
    ensures n < Power256(|b|)
  {
    if b == [] then 0 else b[0] + 256 * FromLittleEndian(b[1..])
  }

  /** A field of two bytes, low byte first. */
  lemma {:induction false} TwoBytes(b: seq<byte>)
    requires |b| == 2
    ensures FromLittleEndian(b) == (b[0] as int) + 0x100 * (b[1] as int)
  {
    assert b[1..][1..] == [];
    assert FromLittleEndian(b[1..]) == b[1] + 256 * FromLittleEndian(b[1..][1..]);
  }

  /** A field of four bytes, low byte first. */
  lemma {:induction false} FourBytes(b: seq<byte>)
    requires |b| == 4
    ensures FromLittleEndian(b)
            == (b[0] as int) + 0x100 * (b[1] as int) + 0x1_0000 * (b[2] as int) + 0x100_0000 * (b[3] as int)
  {
    TwoBytes(b[2..]);
    assert b[1..][1..] == b[2..];
    assert FromLittleEndian(b[1..]) == b[1] + 256 * FromLittleEndian(b[2..]);
  }

  lemma PowersUsed()
    ensures Power256(2) == 65536 && Power256(4) == TWO_32 && Power256(8) == TWO_64
  {
    assert Power256(2) == 256 * Power256(1) == 65536;
    assert Power256(4) == 256 * Power256(3) == 65536 * Power256(2);
    assert Power256(6) == 256 * Power256(5) == 65536 * Power256(4);
    assert Power256(8) == 256 * Power256(7) == 65536 * Power256(6);
  }

  /** Decoding what was stored gives the value back when it fits the field. */
  lemma {:induction false} DecodeEncode(n: nat, width: nat)
    requires n < Power256(width)
    ensures FromLittleEndian(LittleEndian(n, width)) == n
  {
    if width == 0 {
    } else {
      DecodeEncode(n / 256, width - 1);
      assert LittleEndian(n, width)[1..] == LittleEndian(n / 256, width - 1);
    }
  }

  lemma LowSixteenBits(n: nat)
    ensures n % 256 + 256 * (n / 256 % 256) == n % 65536
  {
    var lo, q := n % 256, n / 256;
    var hi, high := q % 256, q / 256;
    assert n == 256 * q + lo && q == 256 * high + hi;
    assert n == 65536 * high + (256 * hi + lo);
    LowPart(high, 256 * hi + lo);
  }

  lemma LowPart(high: nat, low: nat)
    requires low < 65536
    ensures (65536 * high + low) % 65536 == low
  {
  }

  /** A 16-bit field keeps exactly the low 16 bits: narrowing is lossless below 65536 only. */
  lemma {:induction false} Field16(n: nat)
    ensures FromLittleEndian(LittleEndian(n, 2)) == n % 65536
  {
    var lo, hi: byte := n % 256, n / 256 % 256;
    assert LittleEndian(n, 2) == [lo, hi] by {
      assert LittleEndian(n / 256, 1) == [hi] + LittleEndian(n / 256 / 256, 0);
    }
    assert [lo, hi][1..] == [hi] && [hi][1..] == [];
    assert FromLittleEndian([hi]) == hi;
    LowSixteenBits(n);
  }

  /** Equal widths and equal values mean equal bytes. */
  lemma {:induction false} DecodeInjective(a: seq<byte>, b: seq<byte>)
    requires |a| == |b| && FromLittleEndian(a) == FromLittleEndian(b)
    ensures a == b
  {
    if a == [] {
    } else {
      assert a[0] == FromLittleEndian(a) % 256 && b[0] == FromLittleEndian(b) % 256;
      DecodeInjective(a[1..], b[1..]);
      assert a == [a[0]] + a[1..] && b == [b[0]] + b[1..];
    }
  }

  /** What `memcpy(s + offset, data, |data|)` leaves in `s`. */
  function Splice(s: seq<byte>, offset: nat, data: seq<byte>): (t: seq<byte>)
    requires offset + |data| <= |s|
    ensures |t| == |s|
    ensures t[offset..offset + |data|] == data
    ensures forall i :: 0 <= i < |s| && !(offset <= i < offset + |data|) ==> t[i] == s[i]
  {
    s[..offset] + data + s[offset + |data|..]
  }

  lemma SpliceElsewhere(s: seq<byte>, offset: nat, data: seq<byte>, lo: nat, hi: nat)
    requires offset + |data| <= |s| && lo <= hi <= |s|
    requires hi <= offset || offset + |data| <= lo
    ensures Splice(s, offset, data)[lo..hi] == s[lo..hi]
  {
  }
}
