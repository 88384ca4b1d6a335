/**
 Bytes and big-endian numbers. Shifts by k bits are divisions by 2^k, masks of the low k bits are
 remainders modulo 2^k; both round towards minus infinity, as on two's complement words.
 */
module Bytes {

  type byte = x: int | 0 <= x < 256

  /** The byte read as a signed char. */
  function Signed8(b: byte): int {
    if b < 128 then b else b - 256
  }

  function Low8(v: int): byte {
    v % 256
  }

  function BE16(v: int): seq<byte> {
    [Low8(v / 0x100), Low8(v)]
  }

  function BE24(v: int): seq<byte> {
    [Low8(v / 0x10000), Low8(v / 0x100), Low8(v)]
  }

  function BE32(v: int): seq<byte> {
    [Low8(v / 0x1000000), Low8(v / 0x10000), Low8(v / 0x100), Low8(v)]
  }

  function U16(b: seq<byte>): nat
    requires |b| == 2
  {
    b[0] as int * 0x100 + b[1] as int
  }

  function U24(b: seq<byte>): nat
    requires |b| == 3
  {
    b[0] as int * 0x10000 + b[1] as int * 0x100 + b[2] as int
  }

  function U32(b: seq<byte>): nat
    requires |b| == 4
  {
    b[0] as int * 0x1000000 + b[1] as int * 0x10000 + b[2] as int * 0x100 + b[3] as int
  }

  /** A 32-bit word read as a signed integer. */
  function Signed32(v: nat): int {
    if v < 0x80000000 then v else v - 0x100000000
  }

  /** A remainder splits into the remainder of the high part and that of the low part. */
  lemma ModSplit(v: int, low: int, high: int, low2: int)
    requires low > 0 && high > 0 && low2 == low * high
    ensures v % low2 == v / low % high * low + v % low
  {
    var h := v / low;
    var q, r := h / high, h % high;
    Regroup(q, high, r, low);
    Bounded(r, high, low);
    Remainder(v, low2, q, r * low + v % low);
  }

  lemma Regroup(q: int, high: int, r: int, low: int)
    ensures (q * high + r) * low == q * (low * high) + r * low
  {}

  lemma Bounded(r: int, high: int, low: int)
    requires 0 <= r < high && low > 0
    ensures 0 <= r * low && r * low + low <= low * high
  {
    AtLeastOnce(high - r, low);
    Distribute(high, r, low);
  }

  lemma AtLeastOnce(d: int, n: int)
    requires d >= 1 && n > 0
    ensures d * n >= n
  {}

  lemma Distribute(a: int, b: int, n: int)
    ensures (a - b) * n == a * n - b * n
  {}

  lemma Remainder(v: int, n: int, q: int, r: int)
    requires n > 0 && v == q * n + r && 0 <= r < n
    ensures v % n == r && v / n == q
  {
    var q', r' := v / n, v % n;
    assert v == q' * n + r';
    Distribute(q, q', n);
    Distribute(q', q, n);
    if q > q' {
      AtLeastOnce(q - q', n);
    } else if q < q' {
      AtLeastOnce(q' - q, n);
    }
  }

  /** A number written in big-endian order reads back modulo its width. */
  lemma BigEndian16(v: int)
    ensures U16(BE16(v)) == v % 0x10000
  {
    ModSplit(v, 0x100, 0x100, 0x10000);
  }

  lemma BigEndian24(v: int)
    ensures U24(BE24(v)) == v % 0x1000000
  {
    BigEndian16(v);
    ModSplit(v, 0x10000, 0x100, 0x1000000);
  }

  lemma BigEndian32(v: int)
    ensures U32(BE32(v)) == v % 0x100000000
  {
    BigEndian24(v);
    ModSplit(v, 0x1000000, 0x100, 0x100000000);
  }
}
