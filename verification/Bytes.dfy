/** Bytes, fixed-width integers and the two byte orders the programs read. */
module Bytes {

  type byte = b: int | 0 <= b < 256

  const TWO_31 := 0x8000_0000
  const TWO_32 := 0x1_0000_0000
  const INT_MAX := 0x7fff_ffff

  /** The 32-bit two's-complement number with the bits of `u`. */
  function Signed32(u: int): (r: int)
    requires 0 <= u < TWO_32
    ensures -TWO_31 <= r < TWO_31
    ensures r % TWO_32 == u
  {
    if u < TWO_31 then u else u - TWO_32
  }

  function BigEndian16(b0: byte, b1: byte): (r: int)
    ensures 0 <= r < 0x1_0000
  {
    b0 * 256 + b1
  }

  function BigEndian32(b0: byte, b1: byte, b2: byte, b3: byte): (r: int)
    ensures 0 <= r < TWO_32
  {
    ((b0 * 256 + b1) * 256 + b2) * 256 + b3
  }

  function LittleEndian16(b0: byte, b1: byte): (r: int)
    ensures 0 <= r < 0x1_0000
  {
    b0 + b1 * 256
  }

  function LittleEndian32(b0: byte, b1: byte, b2: byte, b3: byte): (r: int)
    ensures 0 <= r < TWO_32
  {
    b0 + b1 * 256 + b2 * 0x1_0000 + b3 * 0x100_0000
  }

  function ToBigEndian16(n: int): (s: seq<byte>)
    requires 0 <= n < 0x1_0000
    ensures |s| == 2 && BigEndian16(s[0], s[1]) == n
  {
    [n / 256, n % 256]
  }

  function ToBigEndian32(n: int): (s: seq<byte>)
    requires 0 <= n < TWO_32
    ensures |s| == 4 && BigEndian32(s[0], s[1], s[2], s[3]) == n
  {
    var high := n / 0x1_0000;
    [high / 256, high % 256, n % 0x1_0000 / 256, n % 256]
  }

  function ToLittleEndian16(n: int): (s: seq<byte>)
    requires 0 <= n < 0x1_0000
    ensures |s| == 2 && LittleEndian16(s[0], s[1]) == n
  {
    [n % 256, n / 256]
  }

  function ToLittleEndian32(n: int): (s: seq<byte>)
    requires 0 <= n < TWO_32
    ensures |s| == 4 && LittleEndian32(s[0], s[1], s[2], s[3]) == n
  {
    var high := n / 0x1_0000;
    [n % 256, n % 0x1_0000 / 256, high % 256, high / 256]
  }

  /** What each byte counts for. */
  lemma PlaceValues(b0: byte, b1: byte, b2: byte, b3: byte)
    ensures BigEndian16(b0, b1) == 0x100 * b0 + b1
    ensures BigEndian32(b0, b1, b2, b3) == 0x100_0000 * b0 + 0x1_0000 * b1 + 0x100 * b2 + b3
    ensures LittleEndian16(b0, b1) == b0 + 0x100 * b1
    ensures LittleEndian32(b0, b1, b2, b3) == b0 + 0x100 * b1 + 0x1_0000 * b2 + 0x100_0000 * b3
  {
  }

  /** The number a loop that shifts in one byte after the other holds after `n` of the four at `at`. */
  function Shifted(d: seq<byte>, at: nat, n: nat): (v: nat)
    requires n <= 4 && at + n <= |d|
    ensures v < if n == 0 then 1 else if n == 1 then 0x100 else if n == 2 then 0x1_0000
                else if n == 3 then 0x100_0000 else TWO_32
  {
    if n == 0 then 0 else Shifted(d, at, n - 1) * 256 + d[at + n - 1]
  }

  lemma ShiftedAll(d: seq<byte>, at: nat)
    requires at + 4 <= |d|
    ensures Shifted(d, at, 4) == BigEndian32(d[at], d[at + 1], d[at + 2], d[at + 3])
  {
    assert Shifted(d, at, 1) == d[at];
    assert Shifted(d, at, 2) == Shifted(d, at, 1) * 256 + d[at + 1];
    assert Shifted(d, at, 3) == Shifted(d, at, 2) * 256 + d[at + 2];
  }

  /** `s` with `t` stored over it from `at` on. */
  function Overwritten(s: seq<byte>, at: nat, t: seq<byte>): (r: seq<byte>)
    requires at + |t| <= |s|
    ensures |r| == |s|
  {
    s[..at] + t + s[at + |t|..]
  }

  /** `memcpy(dst + at, src + from, n)`. */
  method CopyBytes(dst: array<byte>, at: nat, src: array<byte>, from: nat, n: nat)
    requires dst != src
    requires at + n <= dst.Length && from + n <= src.Length
    modifies dst
    ensures dst[..] == Overwritten(old(dst[..]), at, src[from..from + n])
  {
    forall k | 0 <= k < n {
      dst[at + k] := src[from + k];
    }
  }
}
