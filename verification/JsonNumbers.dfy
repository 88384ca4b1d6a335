/** Numbers in a JSON text, as strtol and strtod read them. */
module JsonNumbers {
  import opened Bytes
  import opened JsonText

  const LONG_MAX := 0x7fffffffffffffff

  const POINT: byte := 46
  const PLUS: byte := 43
  const MINUS: byte := 45

  // ---------------------------------------------------------------- integers

  function DigitVal(c: byte): nat {
    if 48 <= c <= 57 then c - 48 else if 97 <= c <= 122 then c - 87 else if 65 <= c <= 90 then c - 55 else 99
  }

  /** The digits from p on, behind the number m, and where they end. */
  function Digits(t: seq<byte>, p: nat, base: nat, m: nat): (r: (nat, nat))
    requires IsText(t) && p < |t| && base <= 36
    ensures p <= r.1 < |t|
    decreases |t| - p
  {
    if DigitVal(t[p]) < base then Digits(t, p + 1, base, m * base + DigitVal(t[p])) else (m, p)
  }

  function Clamp(neg: bool, m: nat): int {
    var v: int := m;
    if neg then (if v > LONG_MAX + 1 then -LONG_MAX - 1 else -v) else if v > LONG_MAX then LONG_MAX else v
  }

  /** Hexadecimal needs a digit behind 0x. */
  predicate IsHexadecimal(t: seq<byte>, p: nat): (r: bool)
    requires IsText(t) && p < |t|
    ensures r ==> p + 2 < |t|
  {
    t[p] == 48 && (t[p + 1] == 120 || t[p + 1] == 88) && DigitVal(t[p + 2]) < 16
  }

  function BehindSign(t: seq<byte>, p: nat): (q: nat)
    requires IsText(t) && p < |t|
    ensures p <= q < |t|
  {
    if t[p] == MINUS then p + 1 else p
  }

  /** The base is that of the prefix. Without digits nothing is read. */
  function StrToL(t: seq<byte>, p: nat): (r: (int, nat))
    requires IsText(t) && p < |t|
    ensures p <= r.1 < |t|
  {
    var q := BehindSign(t, p);
    var hex := IsHexadecimal(t, q);
    var start, base := if hex then q + 2 else q, if hex then 16 else if t[q] == 48 then 8 else 10;
    var m := Digits(t, start, base, 0);
    if m.1 == start then (0, p) else (Clamp(t[p] == MINUS, m.0), m.1)
  }

  // ---------------------------------------------------------------- real numbers

  function Power(base: nat, e: int): (r: real)
    requires base > 0
    ensures r > 0.0
    decreases if e < 0 then -e else e
  {
    if e == 0 then 1.0 else if e > 0 then Power(base, e - 1) * base as real else Power(base, e + 1) / base as real
  }

  /** What stands behind the digits of a number: the number without its point, how many digits are behind
      that, and where they end. */
  function Mantissa(t: seq<byte>, p: nat, base: nat, m: nat): (r: (nat, nat, nat))
    requires IsText(t) && p < |t| && base <= 36
    ensures p <= r.2 < |t|
  {
    if t[p] == POINT then
      var d := Digits(t, p + 1, base, m);
      (d.0, d.1 - (p + 1), d.1)
    else (m, 0, p)
  }

  /** The exponent behind its mark, in lower or upper case; without any digit there is none. */
  function ExponentAt(t: seq<byte>, p: nat, mark: byte): (r: (int, nat))
    requires IsText(t) && p < |t| && 97 <= mark <= 122
    ensures p <= r.1 < |t|
  {
    if t[p] != mark && t[p] != mark - 32 then (0, p)
    else
      var q := if t[p + 1] == PLUS || t[p + 1] == MINUS then p + 2 else p + 1;
      var d := Digits(t, q, 10, 0);
      var n: int := d.0;
      if d.1 == q then (0, p) else (if t[p + 1] == MINUS then -n else n, d.1)
  }

  /** A number with digits behind its point, and an exponent. */
  function Scaled(m: nat, places: int, base: nat, e: int, radix: nat): real
    requires base > 0 && radix > 0
  {
    m as real * Power(base, -places) * Power(radix, e)
  }

  /** A real number that begins with a digit, hexadecimal ones with an exponent of two; its value is exact. */
  function StrToD(t: seq<byte>, p: nat): (r: (real, nat))
    requires IsText(t) && p < |t| && StrToL(t, p).1 != p
    ensures p < r.1 < |t|
  {
    var q := BehindSign(t, p);
    var hex := IsHexadecimal(t, q);
    var start, base := if hex then q + 2 else q, if hex then 16 else 10;
    var w := Digits(t, start, base, 0);
    var m := Mantissa(t, w.1, base, w.0);
    var e := ExponentAt(t, m.2, if hex then 112 else 101);
    var x := Scaled(m.0, m.1, base, e.0, if hex then 2 else 10);
    (if t[p] == MINUS then -x else x, e.1)
  }

  predicate StartsNumber(c: byte) {
    c == MINUS || 48 <= c <= 57
  }

  predicate EndsReal(c: byte) {
    c == POINT || c == 101 || c == 69
  }
}
