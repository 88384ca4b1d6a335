/**
 The texts of RFC 8259 as they are laid out: any white space, any escapes. Each is read as the value it
 denotes; without an encoder, as `loads` reads, exactly when no string of it holds a unicode escape.
 */
module JsonSyntax {
  import opened Bytes
  import opened Pieces
  import opened JsonText
  import opened JsonNumbers
  import opened JsonStrings
  import opened JsonParser

  // ---------------------------------------------------------------- texts

  /** An element of an array, the value of a member, or a whole document, in its white space. */
  datatype Element = Element(before: seq<byte>, text: Text, after: seq<byte>)

  /** A member: its key, the white space around that, and its value behind the colon. */
  datatype Member = Member(before: seq<byte>, key: seq<Char>, after: seq<byte>, value: Element)

  /** The exponent of a number: its mark, its sign if it has one, and its digits. */
  datatype Exponent = Exponent(mark: byte, sign: seq<byte>, digits: seq<byte>)

  /** A number with a fraction or an exponent is real; `gap` is the white space in an empty pair of
      brackets. */
  datatype Text =
    | NullText
    | BoolText(b: bool)
    | NumberText(negative: bool, magnitude: nat)
    | RealText(negative: bool, magnitude: nat, fraction: seq<byte>, exponent: Option<Exponent>)
    | StringText(chars: seq<Char>)
    | ArrayText(elements: seq<Element>, gap: seq<byte>)
    | ObjectText(members: seq<Member>, gap: seq<byte>)

  predicate IsGap(s: seq<byte>) {
    forall i :: 0 <= i < |s| ==> s[i] == 32 || s[i] == 9 || s[i] == 10 || s[i] == 13
  }

  predicate AreDigits(s: seq<byte>) {
    forall i :: 0 <= i < |s| ==> 48 <= s[i] <= 57
  }

  predicate ValidExponent(e: Exponent) {
    && (e.mark == 101 || e.mark == 69) && (e.sign == [] || e.sign == [PLUS] || e.sign == [MINUS])
    && e.digits != [] && AreDigits(e.digits)
  }

  predicate ValidText(x: Text)
    decreases x, 0
  {
    match x
    case NullText => true
    case BoolText(_) => true
    case NumberText(_, _) => true
    case RealText(_, _, f, e) => AreDigits(f) && (f != [] || e.Some?) && (e.Some? ==> ValidExponent(e.value))
    case StringText(cs) => ValidChars(cs)
    case ArrayText(es, gap) => IsGap(gap) && ValidElements(es)
    case ObjectText(ms, gap) => IsGap(gap) && ValidMembers(ms)
  }

  predicate ValidElement(e: Element)
    decreases e, 1
  {
    IsGap(e.before) && ValidText(e.text) && IsGap(e.after)
  }

  predicate ValidElements(es: seq<Element>)
    decreases es, 2
  {
    es == [] || (ValidElement(es[0]) && ValidElements(es[1..]))
  }

  predicate ValidMember(m: Member)
    decreases m, 2
  {
    IsGap(m.before) && ValidChars(m.key) && IsGap(m.after) && ValidElement(m.value)
  }

  predicate ValidMembers(ms: seq<Member>)
    decreases ms, 3
  {
    ms == [] || (ValidMember(ms[0]) && ValidMembers(ms[1..]))
  }

  function DigitsOf(n: nat): seq<byte> {
    if n < 10 then [48 + n] else DigitsOf(n / 10) + [48 + n % 10]
  }

  function PrintFraction(f: seq<byte>): seq<byte> {
    if f == [] then [] else [POINT] + f
  }

  function PrintExponent(e: Option<Exponent>): seq<byte> {
    if e == None then [] else [e.value.mark] + (e.value.sign + e.value.digits)
  }

  function PrintText(x: Text): seq<byte>
    decreases x, 0
  {
    match x
    case NullText => NULL_WORD
    case BoolText(b) => if b then TRUE_WORD else FALSE_WORD
    case NumberText(negative, n) => (if negative then [MINUS] else []) + DigitsOf(n)
    case RealText(negative, n, f, e) =>
      (if negative then [MINUS] else []) + (DigitsOf(n) + (PrintFraction(f) + PrintExponent(e)))
    case StringText(cs) => PrintQuoted(cs)
    case ArrayText(es, gap) => [OPEN_BRACKET] + ((if es == [] then gap else PrintElements(es)) + [CLOSE_BRACKET])
    case ObjectText(ms, gap) => [OPEN_BRACE] + ((if ms == [] then gap else PrintMembers(ms)) + [CLOSE_BRACE])
  }

  function PrintElement(e: Element): seq<byte>
    decreases e, 1
  {
    e.before + (PrintText(e.text) + e.after)
  }

  function PrintElements(es: seq<Element>): seq<byte>
    decreases es, 2
  {
    if es == [] then []
    else PrintElement(es[0]) + if |es| == 1 then [] else [COMMA] + PrintElements(es[1..])
  }

  function PrintMember(m: Member): seq<byte>
    decreases m, 2
  {
    m.before + (PrintQuoted(m.key) + (m.after + ([COLON] + PrintElement(m.value))))
  }

  function PrintMembers(ms: seq<Member>): seq<byte>
    decreases ms, 3
  {
    if ms == [] then []
    else PrintMember(ms[0]) + if |ms| == 1 then [] else [COMMA] + PrintMembers(ms[1..])
  }

  /** The value of the digits behind a point. */
  function FractionValue(f: seq<byte>): real
    requires AreDigits(f)
  {
    if f == [] then 0.0 else ((f[0] as int - 48) as real + FractionValue(f[1..])) / 10.0
  }

  function NatOf(digits: seq<byte>): nat
    requires AreDigits(digits)
  {
    if digits == [] then 0 else NatOf(digits[..|digits| - 1]) * 10 + (digits[|digits| - 1] - 48)
  }

  function ExponentValue(e: Option<Exponent>): int
    requires e.Some? ==> ValidExponent(e.value)
  {
    if e == None then 0 else if e.value.sign == [MINUS] then -(NatOf(e.value.digits) as int) else NatOf(e.value.digits)
  }

  function Magnitude(n: nat, f: seq<byte>, e: Option<Exponent>): real
    requires AreDigits(f) && (e.Some? ==> ValidExponent(e.value))
  {
    (n as real + FractionValue(f)) * Power(10, ExponentValue(e))
  }

  function RealValue(negative: bool, n: nat, f: seq<byte>, e: Option<Exponent>): real
    requires AreDigits(f) && (e.Some? ==> ValidExponent(e.value))
  {
    if negative then -Magnitude(n, f, e) else Magnitude(n, f, e)
  }

  /** The value of a text: integers are saturated to 64 bits. */
  function Denote(x: Text, utf8: bool): Json
    requires ValidText(x)
    decreases x, 0
  {
    match x
    case NullText => Null
    case BoolText(b) => Bool(b)
    case NumberText(negative, n) => Int(Clamp(negative, n))
    case RealText(negative, n, f, e) => Double(RealValue(negative, n, f, e))
    case StringText(cs) => Str(DenoteChars(cs, utf8))
    case ArrayText(es, _) => Arr(DenoteElements(es, utf8))
    case ObjectText(ms, _) => Obj(DenoteMembers(ms, utf8))
  }

  function DenoteElements(es: seq<Element>, utf8: bool): seq<Json>
    requires ValidElements(es)
    decreases es, 2
  {
    if es == [] then []
    else
      assert ValidElement(es[0]);
      [Denote(es[0].text, utf8)] + DenoteElements(es[1..], utf8)
  }

  function DenoteMembers(ms: seq<Member>, utf8: bool): seq<Field>
    requires ValidMembers(ms)
    decreases ms, 3
  {
    if ms == [] then []
    else
      assert ValidMember(ms[0]) && ValidElement(ms[0].value);
      [Field(DenoteChars(ms[0].key, utf8), Denote(ms[0].value.text, utf8))] + DenoteMembers(ms[1..], utf8)
  }

  // ---------------------------------------------------------------- reading integers

  predicate Delimits(c: byte) {
    c == 0 || c == COMMA || c == CLOSE_BRACKET || c == CLOSE_BRACE || c == 32 || c == 9 || c == 10 || c == 13
  }

  lemma DigitStep(t: seq<byte>, p: nat, m: nat)
    requires IsText(t) && p < |t| && 48 <= t[p] <= 57
    ensures p + 1 < |t| && Digits(t, p, 10, m) == Digits(t, p + 1, 10, m * 10 + (t[p] - 48))
  {}

  lemma {:induction false} DigitsAreRead(t: seq<byte>, p: nat, n: nat)
    requires IsText(t) && At(t, p, DigitsOf(n)) && p + |DigitsOf(n)| < |t|
    ensures Digits(t, p, 10, 0) == Digits(t, p + |DigitsOf(n)|, 10, n)
    decreases n
  {
    hide Digits;
    if n < 10 {
      AtIndex(t, p, DigitsOf(n), 0);
      DigitStep(t, p, 0);
    } else {
      var front := DigitsOf(n / 10);
      AtConcat(t, p, front, [48 + n % 10]);
      AtIndex(t, p + |front|, [48 + n % 10], 0);
      DigitsAreRead(t, p, n / 10);
      DigitStep(t, p + |front|, n / 10);
      assert n / 10 * 10 + n % 10 == n;
    }
  }

  lemma {:induction false} FirstDigit(n: nat)
    ensures DigitsOf(n) != [] && 48 <= DigitsOf(n)[0] <= 57 && (DigitsOf(n)[0] == 48 <==> n == 0)
    ensures n == 0 ==> |DigitsOf(n)| == 1
    decreases n
  {
    if n >= 10 {
      FirstDigit(n / 10);
    }
  }

  /** What cannot go on a decimal number, and does not make its zero the prefix of another base. */
  predicate EndsDigits(c: byte) {
    DigitVal(c) >= 10 && c != 120 && c != 88
  }

  lemma DigitsStop(t: seq<byte>, p: nat, base: nat, m: nat)
    requires IsText(t) && p < |t| && EndsDigits(t[p]) && base <= 10
    ensures Digits(t, p, base, m) == (m, p)
  {}

  lemma ZeroIsRead(t: seq<byte>, p: nat, base: nat)
    requires IsText(t) && p + 1 < |t| && t[p] == 48 && EndsDigits(t[p + 1]) && (base == 8 || base == 10)
    ensures Digits(t, p, base, 0) == (0, p + 1)
  {
    DigitsStop(t, p + 1, base, 0);
  }

  /** Only zero begins with a zero, so that a number is read in base ten or is a single zero. */
  lemma MagnitudeIsRead(t: seq<byte>, p: nat, n: nat)
    requires IsText(t) && At(t, p, DigitsOf(n)) && p + |DigitsOf(n)| < |t| && EndsDigits(t[p + |DigitsOf(n)|])
    ensures p < p + |DigitsOf(n)| && 48 <= t[p] <= 57 && (t[p] == 48 ==> p + |DigitsOf(n)| == p + 1)
    ensures Digits(t, p, 10, 0) == (n, p + |DigitsOf(n)|)
    ensures t[p] == 48 ==> Digits(t, p, 8, 0) == (n, p + |DigitsOf(n)|)
  {
    hide At, Digits, DigitsOf, EndsDigits;
    FirstDigit(n);
    AtIndex(t, p, DigitsOf(n), 0);
    if n == 0 {
      ZeroIsRead(t, p, 8);
      ZeroIsRead(t, p, 10);
    } else {
      DigitsAreRead(t, p, n);
      DigitsStop(t, p + |DigitsOf(n)|, 10, n);
    }
  }

  /** How the integer at the beginning of a number is read. */
  lemma IntegerIsRead(t: seq<byte>, p: nat, negative: bool, n: nat)
    requires var s := PrintText(NumberText(negative, n));
             IsText(t) && At(t, p, s) && p + |s| < |t| && EndsDigits(t[p + |s|])
    ensures var end := p + |PrintText(NumberText(negative, n))|;
            && p < end && StartsNumber(t[p]) && (t[p] == MINUS) == negative
            && StrToL(t, p) == (Clamp(negative, n), end)
            && !IsHexadecimal(t, BehindSign(t, p)) && Digits(t, BehindSign(t, p), 10, 0) == (n, end)
  {
    hide DigitsOf, At, Digits, Clamp, DigitVal;
    if negative {
      AtConcat(t, p, [MINUS], DigitsOf(n));
      AtIndex(t, p, [MINUS], 0);
      MagnitudeIsRead(t, p + 1, n);
    } else {
      assert [] + DigitsOf(n) == DigitsOf(n);
      MagnitudeIsRead(t, p, n);
    }
  }

  lemma NumberIsRead(t: seq<byte>, p: nat, negative: bool, n: nat)
    requires var s := PrintText(NumberText(negative, n));
             IsText(t) && At(t, p, s) && p + |s| < |t| && Delimits(t[p + |s|])
    ensures p < |t| && StartsNumber(t[p])
    ensures NumberAt(t, p) == Done(Some(Int(Clamp(negative, n))), p + |PrintText(NumberText(negative, n))|)
  {
    hide StrToL, StrToD, At, PrintText, Clamp, Digits;
    IntegerIsRead(t, p, negative, n);
  }

  // ---------------------------------------------------------------- reading real numbers

  lemma {:induction false} PowerStep(base: nat, e: int)
    requires base > 0
    ensures Power(base, e + 1) == Power(base, e) * base as real
  {
    if e < 0 {
      Divided(Power(base, e + 1), base as real);
    }
  }

  lemma PowerZero(base: nat)
    requires base > 0
    ensures Power(base, 0) == 1.0
  {}

  lemma Divided(x: real, y: real)
    requires y != 0.0
    ensures x / y * y == x
  {}

  lemma {:induction false} PowerInverse(base: nat, k: int)
    requires base > 0 && k >= 0
    ensures Power(base, k) * Power(base, -k) == 1.0
    decreases k
  {
    if k > 0 {
      PowerInverse(base, k - 1);
      PowerStep(base, -k);
      Reassociate(Power(base, k - 1), base as real, Power(base, -k));
    }
  }

  lemma Reassociate(a: real, b: real, c: real)
    ensures a * b * c == a * (c * b)
  {}

  /** The digits of a fraction are read on behind the number in front of the point. */
  lemma {:induction false} FractionIsRead(t: seq<byte>, p: nat, f: seq<byte>, m: nat)
    requires IsText(t) && AreDigits(f) && At(t, p, f) && p + |f| < |t| && EndsDigits(t[p + |f|])
    ensures var d := Digits(t, p, 10, m);
            d.1 == p + |f| && d.0 as real == (m as real + FractionValue(f)) * Power(10, |f|)
    decreases |f|
  {
    hide At, Digits, EndsDigits, Power;
    if f == [] {
      DigitsStop(t, p, 10, m);
      assert Power(10, 0) == 1.0 by { PowerZero(10); }
    } else {
      AtFirst(t, p, f);
      var d: nat := f[0] - 48;
      DigitStep(t, p, m);
      FractionIsRead(t, p + 1, f[1..], m * 10 + d);
      Shifted(m as real, d as real, FractionValue(f[1..]), Power(10, |f| - 1));
      PowerStep(10, |f| - 1);
    }
  }

  lemma Shifted(m: real, d: real, rest: real, power: real)
    ensures (m * 10.0 + d + rest) * power == (m + (d + rest) / 10.0) * (power * 10.0)
  {
    var x := (d + rest) / 10.0;
    assert d + rest == x * 10.0;
    assert (m + x) * (power * 10.0) == (m + x) * 10.0 * power by { Reassociate(m + x, 10.0, power); }
  }

  lemma {:induction false} NatIsRead(t: seq<byte>, p: nat, digits: seq<byte>)
    requires IsText(t) && AreDigits(digits) && At(t, p, digits) && p + |digits| < |t|
    ensures Digits(t, p, 10, 0) == Digits(t, p + |digits|, 10, NatOf(digits))
    decreases |digits|
  {
    hide At, Digits;
    if digits != [] {
      var front, last := digits[..|digits| - 1], digits[|digits| - 1..];
      assert digits == front + last;
      AtConcat(t, p, front, last);
      AtIndex(t, p + |front|, last, 0);
      NatIsRead(t, p, front);
      DigitStep(t, p + |front|, NatOf(front));
    }
  }

  lemma MarkEnds(c: byte)
    requires c == 101 || c == 69
    ensures EndsDigits(c) && EndsReal(c) && c != POINT
  {}

  lemma DelimiterEnds(c: byte)
    requires Delimits(c)
    ensures EndsDigits(c) && !EndsReal(c)
  {}

  /** Behind the mark there is a digit or a sign. */
  lemma ExponentDigits(t: seq<byte>, p: nat, e: Exponent)
    requires IsText(t) && ValidExponent(e) && At(t, p, e.sign + e.digits) && p + |e.sign + e.digits| < |t|
    requires EndsDigits(t[p + |e.sign + e.digits|])
    ensures p < |t|
    ensures var q := if t[p] == PLUS || t[p] == MINUS then p + 1 else p;
            && q < |t| && (t[p] == MINUS) == (e.sign == [MINUS])
            && Digits(t, q, 10, 0) == (NatOf(e.digits), p + |e.sign + e.digits|) && q < p + |e.sign + e.digits|
  {
    hide At, Digits, NatOf, EndsDigits;
    AtConcat(t, p, e.sign, e.digits);
    AtIndex(t, p + |e.sign|, e.digits, 0);
    if e.sign != [] {
      AtIndex(t, p, e.sign, 0);
    }
    NatIsRead(t, p + |e.sign|, e.digits);
    DigitsStop(t, p + |e.sign| + |e.digits|, 10, NatOf(e.digits));
  }

  lemma ExponentIsRead(t: seq<byte>, p: nat, e: Option<Exponent>)
    requires IsText(t) && (e.Some? ==> ValidExponent(e.value)) && At(t, p, PrintExponent(e))
    requires p + |PrintExponent(e)| < |t| && Delimits(t[p + |PrintExponent(e)|])
    ensures ExponentAt(t, p, 101) == (ExponentValue(e), p + |PrintExponent(e)|)
    ensures EndsDigits(t[p]) && t[p] != POINT && (e.Some? ==> EndsReal(t[p]))
  {
    hide At, Digits, NatOf, Delimits, EndsDigits, AreDigits;
    DelimiterEnds(t[p + |PrintExponent(e)|]);
    if e.Some? {
      var x := e.value;
      AtConcat(t, p, [x.mark], x.sign + x.digits);
      AtIndex(t, p, [x.mark], 0);
      MarkEnds(x.mark);
      ExponentDigits(t, p + 1, x);
    }
  }

  lemma MantissaIsRead(t: seq<byte>, p: nat, f: seq<byte>, n: nat)
    requires IsText(t) && AreDigits(f) && At(t, p, PrintFraction(f)) && p + |PrintFraction(f)| < |t|
    requires EndsDigits(t[p + |PrintFraction(f)|]) && t[p + |PrintFraction(f)|] != POINT
    ensures var m := Mantissa(t, p, 10, n);
            && m.1 == |f| && m.2 == p + |PrintFraction(f)|
            && m.0 as real == (n as real + FractionValue(f)) * Power(10, |f|)
    ensures EndsDigits(t[p]) && (f != [] ==> EndsReal(t[p]))
  {
    hide At, Digits;
    if f != [] {
      AtConcat(t, p, [POINT], f);
      AtIndex(t, p, [POINT], 0);
      FractionIsRead(t, p + 1, f, n);
    }
  }

  lemma ScaledBack(m: nat, k: int, n: nat, f: seq<byte>, e: Option<Exponent>)
    requires AreDigits(f) && (e.Some? ==> ValidExponent(e.value))
    requires k >= 0 && m as real == (n as real + FractionValue(f)) * Power(10, k)
    ensures Scaled(m, k, 10, ExponentValue(e), 10) == Magnitude(n, f, e)
  {
    hide Power, FractionValue, ExponentValue, ValidExponent, AreDigits;
    PowerInverse(10, k);
    var x, a, b := n as real + FractionValue(f), Power(10, k), Power(10, -k);
    assert x * a * b == x * (b * a) by { Reassociate(x, a, b); }
  }

  /** A number with a fraction or an exponent has the value of its digits by their places. */
  lemma RealIsRead(t: seq<byte>, p: nat, negative: bool, n: nat, f: seq<byte>, e: Option<Exponent>)
    requires ValidText(RealText(negative, n, f, e))
    requires var s := PrintText(RealText(negative, n, f, e));
             IsText(t) && At(t, p, s) && p + |s| < |t| && Delimits(t[p + |s|])
    ensures p < |t| && StartsNumber(t[p])
    ensures NumberAt(t, p)
         == Done(Some(Double(RealValue(negative, n, f, e))), p + |PrintText(RealText(negative, n, f, e))|)
  {
    hide At, DigitsOf, Digits, Mantissa, ExponentAt, PrintFraction, PrintExponent, FractionValue, ExponentValue;
    hide Power, Scaled, Magnitude, StrToL, IsHexadecimal, BehindSign, Delimits, EndsDigits, EndsReal, ValidExponent;
    hide AreDigits, Clamp;
    var head, rest := PrintText(NumberText(negative, n)), PrintFraction(f) + PrintExponent(e);
    Assoc(if negative then [MINUS] else [], DigitsOf(n), rest);
    AtConcat(t, p, head, rest);
    var q := p + |head|;
    AtConcat(t, q, PrintFraction(f), PrintExponent(e));
    ExponentIsRead(t, q + |PrintFraction(f)|, e);
    MantissaIsRead(t, q, f, n);
    NoFraction(t, q, f);
    IntegerIsRead(t, p, negative, n);
    ScaledBack(Mantissa(t, q, 10, n).0, |f|, n, f, e);
    assert StrToD(t, p) == (RealValue(negative, n, f, e), q + |rest|);
  }

  lemma NoFraction(t: seq<byte>, p: nat, f: seq<byte>)
    ensures f == [] ==> p + |PrintFraction(f)| == p
  {}

  // ---------------------------------------------------------------- white space

  lemma {:induction false} GapInFrontOfValue(t: seq<byte>, p: nat, gap: seq<byte>, utf8: bool)
    requires IsText(t) && IsGap(gap) && At(t, p, gap) && p + |gap| < |t|
    ensures ValueAt(t, p, utf8) == ValueAt(t, p + |gap|, utf8)
    decreases |gap|
  {
    if gap != [] {
      AtFirst(t, p, gap);
      GapInFrontOfValue(t, p + 1, gap[1..], utf8);
    }
  }

  lemma {:induction false} GapInFrontOfKey(t: seq<byte>, p: nat, gap: seq<byte>, utf8: bool)
    requires IsText(t) && IsGap(gap) && At(t, p, gap) && p + |gap| < |t|
    ensures KeyAt(t, p, utf8) == KeyAt(t, p + |gap|, utf8)
    decreases |gap|
  {
    if gap != [] {
      AtFirst(t, p, gap);
      GapInFrontOfKey(t, p + 1, gap[1..], utf8);
    }
  }

  lemma {:induction false} GapIsWhitespace(t: seq<byte>, p: nat, gap: seq<byte>)
    requires IsText(t) && IsGap(gap) && At(t, p, gap) && p + |gap| < |t| && !IsWhitespace(t[p + |gap|])
    ensures SkipWhitespace(t, p) == p + |gap|
    decreases |gap|
  {
    if gap != [] {
      AtFirst(t, p, gap);
      GapIsWhitespace(t, p + 1, gap[1..]);
    }
  }

  /** What comes first in a gap or behind it. */
  lemma FirstOfGap(t: seq<byte>, p: nat, gap: seq<byte>)
    requires IsGap(gap) && At(t, p, gap) && p + |gap| < |t|
    ensures gap == [] ==> t[p] == t[p + |gap|]
    ensures gap != [] ==> t[p] == 32 || t[p] == 9 || t[p] == 10 || t[p] == 13
  {
    if gap != [] {
      AtIndex(t, p, gap, 0);
    }
  }

  // ---------------------------------------------------------------- reading values

  lemma WordIsRead(t: seq<byte>, p: nat, word: seq<byte>, v: Json)
    requires At(t, p, word)
    ensures WordAt(t, p, word, v) == Done(Some(v), p + |word|)
  {}

  /** What a value is read as depends on its first byte. */
  lemma Dispatch(t: seq<byte>, p: nat, utf8: bool)
    requires IsText(t) && p < |t|
    ensures t[p] == OPEN_BRACE ==> p + 1 < |t| && ValueAt(t, p, utf8) == MembersAt(t, p + 1, [], utf8)
    ensures t[p] == OPEN_BRACKET ==> p + 1 < |t| && ValueAt(t, p, utf8) == ElementsAt(t, p + 1, [], utf8)
    ensures StartsNumber(t[p]) ==> ValueAt(t, p, utf8) == NumberAt(t, p)
    ensures t[p] == 116 ==> ValueAt(t, p, utf8) == WordAt(t, p, TRUE_WORD, Bool(true))
    ensures t[p] == 102 ==> ValueAt(t, p, utf8) == WordAt(t, p, FALSE_WORD, Bool(false))
    ensures t[p] == 110 ==> ValueAt(t, p, utf8) == WordAt(t, p, NULL_WORD, Null)
    ensures t[p] == QUOTE ==>
              && p + 1 < |t|
              && var x := Unescape(t, p + 1, [], utf8);
                 ValueAt(t, p, utf8) == if x == None then Fail
                     else Done(Some(Str(UpToNul(x.value.bytes))), x.value.next)
  {
    hide Unescape, NumberAt, WordAt, ElementsAt, MembersAt, CommentEnd, UpToNul;
  }

  lemma QuotedIsRead(t: seq<byte>, p: nat, cs: seq<Char>, utf8: bool)
    requires IsText(t) && ValidChars(cs) && At(t, p, PrintQuoted(cs))
    ensures p + 1 < |t| && t[p] == QUOTE
    ensures Unescape(t, p + 1, [], utf8) == Some(Piece(DenoteChars(cs, utf8), p + |PrintQuoted(cs)|))
    ensures UpToNul(DenoteChars(cs, utf8)) == DenoteChars(cs, utf8)
  {
    hide Unescape, UpToNul, PrintChars, DenoteChars, ValidChars, At;
    AtConcat(t, p, [QUOTE], PrintChars(cs) + [QUOTE]);
    AtIndex(t, p, [QUOTE], 0);
    CharsAreRead(t, p + 1, cs, [], utf8);
    assert [] + DenoteChars(cs, utf8) == DenoteChars(cs, utf8);
    CharsHaveNoZero(cs, utf8);
    WholeString(DenoteChars(cs, utf8));
  }

  /** The first byte of a text is not white space and closes nothing. */
  lemma FirstByte(x: Text)
    ensures var c := PrintText(x);
            c != [] && c[0] != CLOSE_BRACE && c[0] != CLOSE_BRACKET && !IsSkipped(c[0]) && c[0] != 0
  {
    if (x.NumberText? || x.RealText?) && !x.negative {
      FirstDigit(x.magnitude);
      assert [] + DigitsOf(x.magnitude) == DigitsOf(x.magnitude);
    }
  }

  /** A comma in front of an element is passed over. */
  lemma CommaIsSkipped(t: seq<byte>, p: nat, items: seq<Json>, utf8: bool)
    requires IsText(t) && p < |t| && t[p] == COMMA
    ensures p + 1 < |t| && ElementsAt(t, p, items, utf8) == ElementsAt(t, p + 1, items, utf8)
  {}

  lemma CommaIsSkippedInObject(t: seq<byte>, p: nat, fields: seq<Field>, utf8: bool)
    requires IsText(t) && p < |t| && t[p] == COMMA
    ensures p + 1 < |t| && MembersAt(t, p, fields, utf8) == MembersAt(t, p + 1, fields, utf8)
  {}

  lemma OneItem(t: seq<byte>, p: nat, x: Json, q: nat, before: seq<Json>, utf8: bool)
    requires IsText(t) && p < |t| && ValueAt(t, p, utf8) == Done(Some(x), q)
    ensures p < q < |t|
    ensures ElementsAt(t, p, before, utf8)
            == if t[q] == CLOSE_BRACKET then Done(Some(Arr(before + [x])), q + 1)
                else ElementsAt(t, q, before + [x], utf8)
  {
    hide ValueAt;
  }

  lemma OneField(t: seq<byte>, p: nat, key: seq<byte>, q: nat, x: Json, n: nat, before: seq<Field>,
      utf8: bool)
    requires IsText(t) && p < |t| && KeyAt(t, p, utf8) == Key(key, q) && p < q < |t| && t[q] != CLOSE_BRACE
    requires ValueAt(t, q, utf8) == Done(Some(x), n)
    ensures q < n < |t| && MembersAt(t, p, before, utf8) == MembersAt(t, n, before + [Field(key, x)], utf8)
  {
    hide ValueAt, KeyAt;
  }

  lemma AtEnd(t: seq<byte>, p: nat, fields: seq<Field>, utf8: bool)
    requires IsText(t) && p < |t| && t[p] == CLOSE_BRACE
    ensures MembersAt(t, p, fields, utf8) == Done(Some(Obj(fields)), p + 1)
  {}

  lemma AtClosingBracket(t: seq<byte>, p: nat, items: seq<Json>, utf8: bool)
    requires IsText(t) && p < |t| && t[p] == CLOSE_BRACKET
    ensures ElementsAt(t, p, items, utf8) == Done(Some(Arr(items)), p + 1)
  {}

  lemma ElementsFollowValue(t: seq<byte>, p: nat, q: nat, items: seq<Json>, utf8: bool)
    requires IsText(t) && p < |t| && q < |t| && ValueAt(t, p, utf8) == ValueAt(t, q, utf8)
    ensures ElementsAt(t, p, items, utf8) == ElementsAt(t, q, items, utf8)
  {
    hide ValueAt;
  }

  lemma MembersFollowKey(t: seq<byte>, p: nat, q: nat, fields: seq<Field>, utf8: bool)
    requires IsText(t) && p < |t| && q < |t| && KeyAt(t, p, utf8) == KeyAt(t, q, utf8)
    ensures MembersAt(t, p, fields, utf8) == MembersAt(t, q, fields, utf8)
  {
    hide KeyAt, ValueAt;
  }

  /** A text is read as its value, if what is behind it can be. */
  lemma {:induction false} TextIsRead(t: seq<byte>, p: nat, x: Text, utf8: bool)
    requires IsText(t) && ValidText(x) && At(t, p, PrintText(x)) && p + |PrintText(x)| < |t|
             && Delimits(t[p + |PrintText(x)|])
    ensures ValueAt(t, p, utf8) == Done(Some(Denote(x, utf8)), p + |PrintText(x)|)
    decreases x, 0
  {
    hide ValueAt, NumberAt, WordAt, ElementsAt, MembersAt, At, PrintQuoted, DigitsOf, Clamp, Unescape, UpToNul, IsGap;
    hide DenoteChars, ValidChars, PrintElements, PrintMembers, ValidElements, ValidMembers, DenoteElements,
        DenoteMembers;
    FirstByte(x);
    AtIndex(t, p, PrintText(x), 0);
    Dispatch(t, p, utf8);
    match x {
      case NullText =>
        WordIsRead(t, p, NULL_WORD, Null);
      case BoolText(b) =>
        WordIsRead(t, p, if b then TRUE_WORD else FALSE_WORD, Bool(b));
      case NumberText(negative, n) =>
        NumberIsRead(t, p, negative, n);
      case RealText(negative, n, f, e) =>
        RealIsRead(t, p, negative, n, f, e);
      case StringText(cs) =>
        QuotedIsRead(t, p, cs, utf8);
      case ArrayText(es, gap) =>
        ArrayIsRead(t, p, es, gap, utf8);
      case ObjectText(ms, gap) =>
        ObjectIsRead(t, p, ms, gap, utf8);
    }
  }

  lemma {:induction false} ArrayIsRead(t: seq<byte>, p: nat, es: seq<Element>, gap: seq<byte>, utf8: bool)
    requires IsText(t) && ValidElements(es) && IsGap(gap) && At(t, p, PrintText(ArrayText(es, gap)))
    ensures p + 1 < |t|
    ensures ElementsAt(t, p + 1, [], utf8) == Done(Some(Arr(DenoteElements(es, utf8))),
            p + |PrintText(ArrayText(es, gap))|)
    decreases es, 3
  {
    hide ValueAt, ElementsAt, At, PrintElements, ValidElements, IsGap;
    var inner := if es == [] then gap else PrintElements(es);
    AtConcat(t, p, [OPEN_BRACKET], inner + [CLOSE_BRACKET]);
    AtConcat(t, p + 1, inner, [CLOSE_BRACKET]);
    AtIndex(t, p + 1 + |inner|, [CLOSE_BRACKET], 0);
    if es == [] {
      GapInFrontOfValue(t, p + 1, gap, utf8);
      ElementsFollowValue(t, p + 1, p + 1 + |gap|, [], utf8);
      AtClosingBracket(t, p + 1 + |gap|, [], utf8);
    } else {
      ElementsAreRead(t, p + 1, es, [], utf8);
      assert [] + DenoteElements(es, utf8) == DenoteElements(es, utf8);
    }
  }

  lemma {:induction false} ObjectIsRead(t: seq<byte>, p: nat, ms: seq<Member>, gap: seq<byte>, utf8: bool)
    requires IsText(t) && ValidMembers(ms) && IsGap(gap) && At(t, p, PrintText(ObjectText(ms, gap)))
    ensures p + 1 < |t|
    ensures MembersAt(t, p + 1, [], utf8) == Done(Some(Obj(DenoteMembers(ms, utf8))),
            p + |PrintText(ObjectText(ms, gap))|)
    decreases ms, 4
  {
    hide ValueAt, KeyAt, MembersAt, At, PrintMembers, ValidMembers, IsGap;
    var inner := if ms == [] then gap else PrintMembers(ms);
    AtConcat(t, p, [OPEN_BRACE], inner + [CLOSE_BRACE]);
    AtConcat(t, p + 1, inner, [CLOSE_BRACE]);
    AtIndex(t, p + 1 + |inner|, [CLOSE_BRACE], 0);
    if ms == [] {
      GapInFrontOfKey(t, p + 1, gap, utf8);
      MembersFollowKey(t, p + 1, p + 1 + |gap|, [], utf8);
      AtEnd(t, p + 1 + |gap|, [], utf8);
    } else {
      MembersAreRead(t, p + 1, ms, [], utf8);
      assert [] + DenoteMembers(ms, utf8) == DenoteMembers(ms, utf8);
    }
  }

  /** A text in its white space: it is read up to the white space behind it. */
  lemma {:induction false} ElementIsRead(t: seq<byte>, p: nat, e: Element, utf8: bool)
    requires IsText(t) && ValidElement(e) && At(t, p, PrintElement(e))
    requires p + |PrintElement(e)| < |t| && Delimits(t[p + |PrintElement(e)|])
    ensures var q := p + |e.before| + |PrintText(e.text)|;
            && At(t, q, e.after) && q + |e.after| == p + |PrintElement(e)|
            && ValueAt(t, p, utf8) == Done(Some(Denote(e.text, utf8)), q)
            && t[p] != CLOSE_BRACE
    decreases e, 1
  {
    hide ValueAt, At, PrintText, ValidText, IsGap, Denote;
    var x := PrintText(e.text);
    var q := p + |e.before|;
    AtConcat(t, p, e.before, x + e.after);
    AtConcat(t, q, x, e.after);
    FirstByte(e.text);
    AtIndex(t, q, x, 0);
    AtFits(t, q + |x|, e.after);
    FirstOfGap(t, q + |x|, e.after);
    FirstOfGap(t, p, e.before);
    TextIsRead(t, q, e.text, utf8);
    GapInFrontOfValue(t, p, e.before, utf8);
  }

  /** Behind an element there is white space, and then a comma or the end. */
  lemma AfterElement(t: seq<byte>, p: nat, gap: seq<byte>, items: seq<Json>, utf8: bool)
    requires IsText(t) && IsGap(gap) && At(t, p, gap) && p + |gap| < |t|
    ensures var e := p + |gap|;
            && (t[e] == CLOSE_BRACKET ==>
                  (if t[p] == CLOSE_BRACKET then Done(Some(Arr(items)), p + 1) else ElementsAt(t, p, items, utf8))
                  == Done(Some(Arr(items)), e + 1))
            && (t[e] == COMMA ==>
                  t[p] != CLOSE_BRACKET && e + 1 < |t|
                      && ElementsAt(t, p, items, utf8) == ElementsAt(t, e + 1, items, utf8))
  {
    hide ValueAt, ElementsAt, At, IsGap;
    var e := p + |gap|;
    FirstOfGap(t, p, gap);
    GapInFrontOfValue(t, p, gap, utf8);
    ElementsFollowValue(t, p, e, items, utf8);
    if t[e] == CLOSE_BRACKET {
      AtClosingBracket(t, e, items, utf8);
    } else if t[e] == COMMA {
      CommaIsSkipped(t, e, items, utf8);
    }
  }

  /** Where the parts of a list of elements are. */
  lemma ElementsLayout(t: seq<byte>, p: nat, es: seq<Element>)
    requires es != [] && At(t, p, PrintElements(es) + [CLOSE_BRACKET])
    ensures var q := p + |PrintElement(es[0])|;
            && At(t, p, PrintElement(es[0])) && q < |t|
            && if |es| == 1 then t[q] == CLOSE_BRACKET && p + |PrintElements(es)| == q
               else && t[q] == COMMA && At(t, q + 1, PrintElements(es[1..]) + [CLOSE_BRACKET])
                    && p + |PrintElements(es)| == q + 1 + |PrintElements(es[1..])|
  {
    hide PrintElement, At;
    var e, rest := PrintElement(es[0]), es[1..];
    var q := p + |e|;
    AtConcat(t, p, PrintElements(es), [CLOSE_BRACKET]);
    AtIndex(t, p + |PrintElements(es)|, [CLOSE_BRACKET], 0);
    AtConcat(t, p, e, if |es| == 1 then [] else [COMMA] + PrintElements(rest));
    if |es| > 1 {
      AtConcat(t, q, [COMMA], PrintElements(rest));
      AtIndex(t, q, [COMMA], 0);
      AtConcat(t, q + 1, PrintElements(rest), [CLOSE_BRACKET]);
    }
  }

  lemma FirstElement(es: seq<Element>, utf8: bool)
    requires es != [] && ValidElements(es)
    ensures ValidElement(es[0]) && ValidElements(es[1..])
    ensures DenoteElements(es, utf8) == [Denote(es[0].text, utf8)] + DenoteElements(es[1..], utf8)
  {
    hide Denote, ValidText;
    assert ValidElement(es[0]);
  }

  lemma NoElements(utf8: bool)
    ensures ValidElements([]) && DenoteElements([], utf8) == []
  {}

  lemma {:induction false} ElementsAreRead(t: seq<byte>, p: nat, es: seq<Element>, before: seq<Json>, utf8: bool)
    requires IsText(t) && es != [] && ValidElements(es) && At(t, p, PrintElements(es) + [CLOSE_BRACKET])
    ensures p < |t|
    ensures ElementsAt(t, p, before, utf8) == Done(Some(Arr(before + DenoteElements(es, utf8))),
            p + |PrintElements(es)| + 1)
    decreases es, 2
  {
    hide ValueAt, ElementsAt, At, PrintElement, PrintElements, PrintText, Denote, DenoteElements, ValidElements,
        ValidText,
         IsGap;
    var e, rest := es[0], es[1..];
    FirstElement(es, utf8);
    ElementsLayout(t, p, es);
    ElementIsRead(t, p, e, utf8);
    var v := Denote(e.text, utf8);
    var q := p + |e.before| + |PrintText(e.text)|;
    OneItem(t, p, v, q, before, utf8);
    AfterElement(t, q, e.after, before + [v], utf8);
    if |es| == 1 {
      assert rest == [];
      assert [v] + DenoteElements([], utf8) == [v] by { NoElements(utf8); }
    } else {
      ElementsAreRead(t, p + |PrintElement(e)| + 1, rest, before + [v], utf8);
      Assoc(before, [v], DenoteElements(rest, utf8));
    }
  }

  /** Where the parts of a member are. */
  lemma MemberLayout(t: seq<byte>, p: nat, m: Member)
    requires At(t, p, PrintMember(m))
    ensures var a := p + |m.before|;
            var b := a + |PrintQuoted(m.key)|;
            var c := b + |m.after|;
            && At(t, p, m.before) && At(t, a, PrintQuoted(m.key)) && At(t, b, m.after) && c < |t| && t[c] == COLON
            && At(t, c + 1, PrintElement(m.value)) && p + |PrintMember(m)| == c + 1 + |PrintElement(m.value)|
  {
    hide At, PrintQuoted, PrintElement;
    var key, value := PrintQuoted(m.key), PrintElement(m.value);
    var a := p + |m.before|;
    var b := a + |key|;
    AtConcat(t, p, m.before, key + (m.after + ([COLON] + value)));
    AtConcat(t, a, key, m.after + ([COLON] + value));
    AtConcat(t, b, m.after, [COLON] + value);
    AtConcat(t, b + |m.after|, [COLON], value);
    AtIndex(t, b + |m.after|, [COLON], 0);
  }

  lemma KeyIsRead(t: seq<byte>, p: nat, key: seq<Char>, gap: seq<byte>, utf8: bool)
    requires IsText(t) && ValidChars(key) && IsGap(gap)
    requires At(t, p, PrintQuoted(key)) && At(t, p + |PrintQuoted(key)|, gap)
    requires var c := p + |PrintQuoted(key)| + |gap|; c < |t| && t[c] == COLON
    ensures p < |t| && KeyAt(t, p, utf8) == Key(DenoteChars(key, utf8), p + |PrintQuoted(key)| + |gap| + 1)
  {
    hide Unescape, UpToNul, PrintQuoted, At, DenoteChars, IsGap, SkipWhitespace, CommentEnd;
    QuotedIsRead(t, p, key, utf8);
    GapIsWhitespace(t, p + |PrintQuoted(key)|, gap);
  }

  /** Where the parts of a list of members are. */
  lemma MembersLayout(t: seq<byte>, p: nat, ms: seq<Member>)
    requires ms != [] && At(t, p, PrintMembers(ms) + [CLOSE_BRACE])
    ensures var q := p + |PrintMember(ms[0])|;
            && At(t, p, PrintMember(ms[0])) && q < |t|
            && if |ms| == 1 then t[q] == CLOSE_BRACE && p + |PrintMembers(ms)| == q
               else && t[q] == COMMA && At(t, q + 1, PrintMembers(ms[1..]) + [CLOSE_BRACE])
                    && p + |PrintMembers(ms)| == q + 1 + |PrintMembers(ms[1..])|
  {
    hide PrintMember, At;
    var m, rest := PrintMember(ms[0]), ms[1..];
    var q := p + |m|;
    AtConcat(t, p, PrintMembers(ms), [CLOSE_BRACE]);
    AtIndex(t, p + |PrintMembers(ms)|, [CLOSE_BRACE], 0);
    AtConcat(t, p, m, if |ms| == 1 then [] else [COMMA] + PrintMembers(rest));
    if |ms| > 1 {
      AtConcat(t, q, [COMMA], PrintMembers(rest));
      AtIndex(t, q, [COMMA], 0);
      AtConcat(t, q + 1, PrintMembers(rest), [CLOSE_BRACE]);
    }
  }

  /** One member is read, up to the white space behind it, which is passed over. */
  lemma {:induction false} MemberIsRead(t: seq<byte>, p: nat, m: Member, before: seq<Field>, utf8: bool)
    requires IsText(t) && ValidMember(m) && At(t, p, PrintMember(m))
    requires p + |PrintMember(m)| < |t| && Delimits(t[p + |PrintMember(m)|])
    ensures p < |t|
    ensures MembersAt(t, p, before, utf8)
         == MembersAt(t, p + |PrintMember(m)|, before + [FieldOf(m, utf8)], utf8)
    decreases m, 2
  {
    hide ValueAt, KeyAt, MembersAt, At, PrintQuoted, PrintElement, PrintMember, PrintText, Denote, ValidText, IsGap;
    hide DenoteChars, ValidChars;
    MemberLayout(t, p, m);
    var a := p + |m.before|;
    var v := a + |PrintQuoted(m.key)| + |m.after| + 1;
    var key, x := FieldOf(m, utf8).key, FieldOf(m, utf8).value;
    GapInFrontOfKey(t, p, m.before, utf8);
    MembersFollowKey(t, p, a, before, utf8);
    KeyIsRead(t, a, m.key, m.after, utf8);
    ElementIsRead(t, v, m.value, utf8);
    var n := v + |m.value.before| + |PrintText(m.value.text)|;
    OneField(t, a, key, v, x, n, before, utf8);
    GapInFrontOfKey(t, n, m.value.after, utf8);
    MembersFollowKey(t, n, n + |m.value.after|, before + [Field(key, x)], utf8);
  }

  lemma FirstMember(ms: seq<Member>, utf8: bool)
    requires ms != [] && ValidMembers(ms)
    ensures ValidMember(ms[0]) && ValidMembers(ms[1..])
    ensures DenoteMembers(ms, utf8) == [FieldOf(ms[0], utf8)] + DenoteMembers(ms[1..], utf8)
  {
    hide Denote, ValidText, DenoteChars, ValidChars;
    assert ValidMember(ms[0]);
  }

  lemma NoMembers(utf8: bool)
    ensures ValidMembers([]) && DenoteMembers([], utf8) == []
  {}

  lemma {:induction false} MembersAreRead(t: seq<byte>, p: nat, ms: seq<Member>, before: seq<Field>, utf8: bool)
    requires IsText(t) && ms != [] && ValidMembers(ms) && At(t, p, PrintMembers(ms) + [CLOSE_BRACE])
    ensures p < |t|
    ensures MembersAt(t, p, before, utf8) == Done(Some(Obj(before + DenoteMembers(ms, utf8))),
            p + |PrintMembers(ms)| + 1)
    decreases ms, 3
  {
    hide MembersAt, At, PrintMember, PrintMembers, FieldOf, DenoteMembers, ValidMember, ValidMembers;
    var m, rest := ms[0], ms[1..];
    FirstMember(ms, utf8);
    MembersLayout(t, p, ms);
    MemberIsRead(t, p, m, before, utf8);
    var q, f := p + |PrintMember(m)|, FieldOf(m, utf8);
    if |ms| == 1 {
      AtEnd(t, q, before + [f], utf8);
      assert rest == [];
      assert [f] + DenoteMembers([], utf8) == [f] by { NoMembers(utf8); }
    } else {
      CommaIsSkippedInObject(t, q, before + [f], utf8);
      MembersAreRead(t, q + 1, rest, before + [f], utf8);
      Assoc(before, [f], DenoteMembers(rest, utf8));
    }
  }

  function FieldOf(m: Member, utf8: bool): Field
    requires ValidMember(m)
  {
    assert ValidElement(m.value);
    Field(DenoteChars(m.key, utf8), Denote(m.value.text, utf8))
  }

  /** The text of a document, with the zero byte behind it. */
  function Document(e: Element): seq<byte> {
    PrintElement(e) + [0]
  }

  /** Every text that is laid out by the rules of RFC 8259 is read as the value it denotes. */
  lemma DocumentIsRead(e: Element, utf8: bool)
    requires ValidElement(e)
    ensures ValueAt(Document(e), 0, utf8) == Done(Some(Denote(e.text, utf8)), |e.before| + |PrintText(e.text)|)
  {
    hide ValueAt, PrintElement, Denote, ValidText;
    var t := Document(e);
    assert At(t, 0, PrintElement(e));
    ElementIsRead(t, 0, e, utf8);
  }

  /** A closing brace right behind a colon ends the object, and the key is forgotten. */
  lemma BraceBehindColonEnds(t: seq<byte>, p: nat, key: seq<Char>, gap: seq<byte>, fields: seq<Field>, utf8: bool)
    requires IsText(t) && ValidChars(key) && IsGap(gap)
             && At(t, p, PrintQuoted(key) + (gap + ([COLON] + [CLOSE_BRACE])))
    ensures p < |t| && MembersAt(t, p, fields, utf8) == Done(Some(Obj(fields)), p + |PrintQuoted(key)| + |gap| + 2)
  {
    hide KeyAt, PrintQuoted, At, ValueAt, IsGap, ValidChars, DenoteChars;
    var q := p + |PrintQuoted(key)|;
    AtConcat(t, p, PrintQuoted(key), gap + ([COLON] + [CLOSE_BRACE]));
    AtConcat(t, q, gap, [COLON] + [CLOSE_BRACE]);
    AtConcat(t, q + |gap|, [COLON], [CLOSE_BRACE]);
    AtIndex(t, q + |gap|, [COLON], 0);
    AtIndex(t, q + |gap| + 1, [CLOSE_BRACE], 0);
    KeyIsRead(t, p, key, gap, utf8);
  }

  // ---------------------------------------------------------------- when loads is right

  /** Some string of the text holds a unicode escape. */
  predicate HasUnicode(x: Text)
    decreases x, 0
  {
    match x
    case NullText => false
    case BoolText(_) => false
    case NumberText(_, _) => false
    case RealText(_, _, _, _) => false
    case StringText(cs) => HasUnicodeChar(cs)
    case ArrayText(es, _) => ElementsHaveUnicode(es)
    case ObjectText(ms, _) => MembersHaveUnicode(ms)
  }

  predicate ElementsHaveUnicode(es: seq<Element>)
    decreases es, 2
  {
    es != [] && (HasUnicode(es[0].text) || ElementsHaveUnicode(es[1..]))
  }

  predicate MembersHaveUnicode(ms: seq<Member>)
    decreases ms, 3
  {
    ms != [] && (HasUnicodeChar(ms[0].key) || HasUnicode(ms[0].value.text) || MembersHaveUnicode(ms[1..]))
  }

  lemma {:induction false} TextKeptIff(x: Text)
    requires ValidText(x)
    ensures Denote(x, false) == Denote(x, true) <==> !HasUnicode(x)
    decreases x, 0
  {
    match x {
      case NullText =>
      case BoolText(_) =>
      case NumberText(_, _) =>
      case RealText(_, _, _, _) =>
      case StringText(cs) =>
        CharsKept(cs);
      case ArrayText(es, _) =>
        ElementsKeptIff(es);
      case ObjectText(ms, _) =>
        MembersKeptIff(ms);
    }
  }

  lemma {:induction false} ElementsKeptIff(es: seq<Element>)
    requires ValidElements(es)
    ensures DenoteElements(es, false) == DenoteElements(es, true) <==> !ElementsHaveUnicode(es)
    decreases es, 2
  {
    hide Denote, HasUnicode, ValidText;
    if es != [] {
      assert ValidElement(es[0]);
      TextKeptIff(es[0].text);
      ElementsKeptIff(es[1..]);
      SameTail(Denote(es[0].text, false), DenoteElements(es[1..], false), Denote(es[0].text, true),
          DenoteElements(es[1..], true));
    }
  }

  lemma SameTail<T>(x: T, a: seq<T>, y: T, b: seq<T>)
    ensures [x] + a == [y] + b <==> x == y && a == b
  {
    if [x] + a == [y] + b {
      assert ([x] + a)[0] == x && ([y] + b)[0] == y;
      assert ([x] + a)[1..] == a && ([y] + b)[1..] == b;
    }
  }

  lemma {:induction false} MembersKeptIff(ms: seq<Member>)
    requires ValidMembers(ms)
    ensures DenoteMembers(ms, false) == DenoteMembers(ms, true) <==> !MembersHaveUnicode(ms)
    decreases ms, 3
  {
    hide Denote, HasUnicode, ValidText, DenoteChars, HasUnicodeChar, ValidChars;
    if ms != [] {
      assert ValidMember(ms[0]) && ValidElement(ms[0].value);
      CharsKept(ms[0].key);
      TextKeptIff(ms[0].value.text);
      MembersKeptIff(ms[1..]);
      SameTail(FieldOf(ms[0], false), DenoteMembers(ms[1..], false), FieldOf(ms[0], true),
          DenoteMembers(ms[1..], true));
    }
  }

  /** Of the texts of RFC 8259, one is read alike with and without an encoder exactly when no string of it
      holds a unicode escape. */
  lemma ReadingAgreesIff(e: Element)
    requires ValidElement(e)
    ensures ValueAt(Document(e), 0, false) == ValueAt(Document(e), 0, true) <==> !HasUnicode(e.text)
  {
    hide ValueAt, Document, Denote, PrintText, ValidText, HasUnicode;
    DocumentIsRead(e, false);
    DocumentIsRead(e, true);
    TextKeptIff(e.text);
  }
}
