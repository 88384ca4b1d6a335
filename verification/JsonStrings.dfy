/**
 The strings of RFC 8259 as they are laid out, with any escapes: what they are read as, and when reading
 them without an encoder for unicode escapes makes no difference.
 */
module JsonStrings {
  import opened Bytes
  import opened Pieces
  import opened JsonText

  // ---------------------------------------------------------------- characters

  /** How a character stands in a string: as it is, behind a backslash, or as one or two numbers of four
      hexadecimal digits. */
  datatype Char = Raw(c: byte) | Short(letter: byte) | Unicode(h: seq<byte>) | Pair(h: seq<byte>, l: seq<byte>)

  predicate IsHex(h: seq<byte>) {
    |h| == 4 && HexVal(h[0]) >= 0 && HexVal(h[1]) >= 0 && HexVal(h[2]) >= 0 && HexVal(h[3]) >= 0
  }

  function HexOf(h: seq<byte>): nat
    requires IsHex(h)
  {
    HexVal(h[0]) * 4096 + HexVal(h[1]) * 256 + HexVal(h[2]) * 16 + HexVal(h[3])
  }

  predicate IsScalar(cp: nat) {
    cp < 0xd800 || 0xe000 <= cp < 0x110000
  }

  predicate IsShort(letter: byte) {
    letter == QUOTE || letter == BACKSLASH || letter == SLASH || Control(letter).Some?
  }

  /** A unicode escape of a scalar value: two numbers are a pair of surrogates. */
  predicate IsEscape(c: Char) {
    match c
    case Raw(_) => false
    case Short(_) => false
    case Unicode(h) => IsHex(h) && IsScalar(HexOf(h))
    case Pair(h, l) => IsHex(h) && IsHex(l) && IsHigh(HexOf(h)) && IsLow(HexOf(l))
  }

  function Codepoint(c: Char): (r: nat)
    requires IsEscape(c)
    ensures IsScalar(r) && Utf8(r).Some?
  {
    match c
    case Unicode(h) => HexOf(h)
    case Pair(h, l) => 0x10000 + (HexOf(h) - 0xd800) * 0x400 + (HexOf(l) - 0xdc00)
  }

  /** What RFC 8259 allows in a string, without the zero character. */
  predicate ValidChar(c: Char) {
    match c
    case Raw(b) => b >= 32 && b != QUOTE && b != BACKSLASH
    case Short(letter) => IsShort(letter)
    case Unicode(_) => IsEscape(c) && Codepoint(c) != 0
    case Pair(_, _) => IsEscape(c)
  }

  function PrintChar(c: Char): (r: seq<byte>)
    ensures r != []
  {
    match c
    case Raw(b) => [b]
    case Short(letter) => [BACKSLASH, letter]
    case Unicode(h) => [BACKSLASH, 117] + h
    case Pair(h, l) => ([BACKSLASH, 117] + h) + ([BACKSLASH, 117] + l)
  }

  /** The bytes that are read for a character; without an encoder a unicode escape stays as it is. */
  function DenoteChar(c: Char, utf8: bool): (r: seq<byte>)
    requires ValidChar(c)
  {
    match c
    case Raw(b) => [b]
    case Short(letter) => [if Control(letter).Some? then Control(letter).value else letter]
    case Unicode(_) => if utf8 then Utf8(Codepoint(c)).value else PrintChar(c)
    case Pair(_, _) => if utf8 then Utf8(Codepoint(c)).value else PrintChar(c)
  }

  predicate ValidChars(cs: seq<Char>) {
    cs == [] || (ValidChar(cs[0]) && ValidChars(cs[1..]))
  }

  function PrintChars(cs: seq<Char>): seq<byte> {
    if cs == [] then [] else PrintChar(cs[0]) + PrintChars(cs[1..])
  }

  function DenoteChars(cs: seq<Char>, utf8: bool): seq<byte>
    requires ValidChars(cs)
  {
    if cs == [] then [] else DenoteChar(cs[0], utf8) + DenoteChars(cs[1..], utf8)
  }

  function PrintQuoted(cs: seq<Char>): seq<byte> {
    [QUOTE] + (PrintChars(cs) + [QUOTE])
  }

  // ---------------------------------------------------------------- reading characters

  predicate IsPlain(s: seq<byte>) {
    forall i :: 0 <= i < |s| ==> s[i] != 0 && s[i] != QUOTE && s[i] != BACKSLASH
  }

  lemma {:induction false} PlainIsKept(t: seq<byte>, p: nat, s: seq<byte>, before: seq<byte>, utf8: bool)
    requires IsText(t) && At(t, p, s) && p + |s| < |t| && IsPlain(s)
    ensures Unescape(t, p, before, utf8) == Unescape(t, p + |s|, before + s, utf8)
    decreases |s|
  {
    if s == [] {
      assert before + s == before;
    } else {
      AtFirst(t, p, s);
      PlainIsKept(t, p + 1, s[1..], before + [s[0]], utf8);
      assert before + [s[0]] + s[1..] == before + s;
    }
  }

  lemma HexIsPlain(h: seq<byte>)
    requires IsHex(h)
    ensures IsPlain([117] + h)
  {}

  /** Without an encoder a unicode escape stays as it is. */
  lemma EscapeIsKept(t: seq<byte>, p: nat, h: seq<byte>, before: seq<byte>)
    requires IsText(t) && IsHex(h) && At(t, p, [BACKSLASH, 117] + h) && p + 6 < |t|
    ensures Unescape(t, p, before, false) == Unescape(t, p + 6, before + ([BACKSLASH, 117] + h), false)
  {
    hide At;
    var e := [117] + h;
    HexIsPlain(h);
    assert [BACKSLASH, 117] + h == [BACKSLASH] + e;
    AtFirst(t, p, [BACKSLASH] + e);
    assert ([BACKSLASH] + e)[1..] == e;
    AtIndex(t, p + 1, e, 0);
    PlainIsKept(t, p + 1, e, before + [BACKSLASH], false);
    assert before + [BACKSLASH] + e == before + ([BACKSLASH] + e);
  }

  lemma MarkedHexIsRead(t: seq<byte>, p: nat, h: seq<byte>)
    requires IsHex(h) && At(t, p, [BACKSLASH, 117] + h)
    ensures p + 6 <= |t| && t[p] == BACKSLASH && t[p + 1] == 117 && Hex4(t, p + 2) == Some(HexOf(h))
  {
    var e := [BACKSLASH, 117] + h;
    assert t[p..p + 6] == e;
  }

  lemma EscapeIsUnicode(t: seq<byte>, p: nat, c: Char)
    requires IsEscape(c) && At(t, p, PrintChar(c))
    ensures p + 6 <= |t| && t[p] == BACKSLASH && t[p + 1] == 117
    ensures UnicodeAt(t, p) == Some(JsonText.Unicode(Codepoint(c), p + |PrintChar(c)|))
  {
    hide Hex4, At, HexOf;
    match c {
      case Unicode(h) =>
        MarkedHexIsRead(t, p, h);
      case Pair(h, l) =>
        var mark: seq<byte> := [BACKSLASH, 117];
        AtConcat(t, p, mark + h, mark + l);
        MarkedHexIsRead(t, p, h);
        MarkedHexIsRead(t, p + 6, l);
    }
  }

  /** With an encoder every scalar value that is escaped, in one or two numbers of either case, becomes its
      UTF-8 form. */
  lemma EscapeIsDecoded(t: seq<byte>, p: nat, c: Char)
    requires IsText(t) && IsEscape(c) && At(t, p, PrintChar(c)) && p + |PrintChar(c)| < |t|
    ensures PieceAt(t, p, true) == Some(Piece(Utf8(Codepoint(c)).value, p + |PrintChar(c)|))
  {
    hide UnicodeAt, Utf8, At, PrintChar;
    EscapeIsUnicode(t, p, c);
  }

  lemma EscapeIsRead(t: seq<byte>, p: nat, c: Char, before: seq<byte>, utf8: bool)
    requires IsText(t) && IsEscape(c) && ValidChar(c) && At(t, p, PrintChar(c)) && p + |PrintChar(c)| < |t|
    ensures Unescape(t, p, before, utf8) == Unescape(t, p + |PrintChar(c)|, before + DenoteChar(c, utf8), utf8)
  {
    hide At, Utf8, UnicodeAt, HexOf;
    if utf8 {
      EscapeIsUnicode(t, p, c);
      EscapeIsDecoded(t, p, c);
    } else {
      EscapeStays(t, p, c, before);
    }
  }

  lemma CharIsRead(t: seq<byte>, p: nat, c: Char, before: seq<byte>, utf8: bool)
    requires IsText(t) && ValidChar(c) && At(t, p, PrintChar(c)) && p + |PrintChar(c)| < |t|
    ensures Unescape(t, p, before, utf8) == Unescape(t, p + |PrintChar(c)|, before + DenoteChar(c, utf8), utf8)
  {
    hide UnicodeAt, Utf8;
    if IsEscape(c) {
      EscapeIsRead(t, p, c, before, utf8);
    } else {
      AtIndex(t, p, PrintChar(c), 0);
      if c.Short? {
        AtIndex(t, p, PrintChar(c), 1);
      }
    }
  }

  lemma {:induction false} CharsAreRead(t: seq<byte>, p: nat, cs: seq<Char>, before: seq<byte>, utf8: bool)
    requires IsText(t) && ValidChars(cs) && At(t, p, PrintChars(cs) + [QUOTE])
    ensures p < |t|
    ensures Unescape(t, p, before, utf8) == Some(Piece(before + DenoteChars(cs, utf8), p + |PrintChars(cs)| + 1))
    decreases |cs|
  {
    hide ValidChar, PrintChar, DenoteChar, Unescape, At;
    AtConcat(t, p, PrintChars(cs), [QUOTE]);
    AtIndex(t, p + |PrintChars(cs)|, [QUOTE], 0);
    if cs == [] {
      assert before + [] == before;
      QuoteEnds(t, p, before, utf8);
    } else {
      var c, rest := cs[0], cs[1..];
      Assoc(PrintChar(c), PrintChars(rest), [QUOTE]);
      AtConcat(t, p, PrintChar(c), PrintChars(rest) + [QUOTE]);
      CharIsRead(t, p, c, before, utf8);
      CharsAreRead(t, p + |PrintChar(c)|, rest, before + DenoteChar(c, utf8), utf8);
      Assoc(before, DenoteChar(c, utf8), DenoteChars(rest, utf8));
    }
  }

  lemma QuoteEnds(t: seq<byte>, p: nat, before: seq<byte>, utf8: bool)
    requires IsText(t) && p < |t| && t[p] == QUOTE
    ensures Unescape(t, p, before, utf8) == Some(Piece(before, p + 1))
  {}

  // ---------------------------------------------------------------- every scalar value can be escaped

  function HexDigit(n: nat): byte
    requires n < 16
  {
    if n < 10 then 48 + n else 87 + n
  }

  function HexBytes(n: nat): seq<byte>
    requires n < 0x10000
  {
    [HexDigit(n / 4096), HexDigit(n / 256 % 16), HexDigit(n / 16 % 16), HexDigit(n % 16)]
  }

  lemma HexBytesAreHex(n: nat)
    requires n < 0x10000
    ensures IsHex(HexBytes(n)) && HexOf(HexBytes(n)) == n
  {
    ModSplit(n, 16, 16, 256);
    ModSplit(n, 256, 16, 4096);
  }

  /** A scalar value as one number, or as a pair of surrogates of ten bits each. */
  function EscapeOf(cp: nat): (c: Char)
    requires IsScalar(cp)
    ensures IsEscape(c) && Codepoint(c) == cp
  {
    if cp < 0x10000 then
      HexBytesAreHex(cp);
      Char.Unicode(HexBytes(cp))
    else
      var h, l := 0xd800 + (cp - 0x10000) / 0x400, 0xdc00 + (cp - 0x10000) % 0x400;
      HexBytesAreHex(h);
      HexBytesAreHex(l);
      Pair(HexBytes(h), HexBytes(l))
  }

  // ---------------------------------------------------------------- when loading without an encoder is right

  /** No piece of the string from p on is a unicode escape. */
  predicate NoUnicode(t: seq<byte>, p: nat)
    requires IsText(t) && p < |t|
    decreases |t| - p
  {
    if t[p] == 0 || t[p] == QUOTE then true
    else if t[p] == BACKSLASH && t[p + 1] == 117 then false
    else
      PieceFits(t, p, false);
      NoUnicode(t, PieceAt(t, p, false).value.next)
  }

  lemma UnescapeStep(t: seq<byte>, p: nat, before: seq<byte>, utf8: bool)
    requires IsText(t) && p < |t| && t[p] != 0 && t[p] != QUOTE
    ensures p + 1 < |t|
    ensures var x := PieceAt(t, p, utf8);
            && (x.Some? ==> p < x.value.next < |t|)
            && Unescape(t, p, before, utf8)
               == if x == None then None else Unescape(t, x.value.next, before + x.value.bytes, utf8)
  {
    hide PieceAt;
    PieceFits(t, p, utf8);
  }

  lemma SamePiece(t: seq<byte>, p: nat)
    requires p + 1 < |t| && !(t[p] == BACKSLASH && t[p + 1] == 117)
    ensures PieceAt(t, p, true) == PieceAt(t, p, false) && PieceAt(t, p, true).Some?
  {
    hide UnicodeAt, Utf8;
  }

  lemma {:induction false} SameWithoutUnicode(t: seq<byte>, p: nat, before: seq<byte>)
    requires IsText(t) && p < |t| && NoUnicode(t, p)
    ensures Unescape(t, p, before, true) == Unescape(t, p, before, false)
    decreases |t| - p
  {
    hide PieceAt;
    if t[p] != 0 && t[p] != QUOTE {
      UnescapeStep(t, p, before, true);
      UnescapeStep(t, p, before, false);
      SamePiece(t, p);
      var x := PieceAt(t, p, true).value;
      SameWithoutUnicode(t, x.next, before + x.bytes);
    }
  }

  lemma HexAt(t: seq<byte>, p: nat)
    requires p + 1 < |t| && t[p] == BACKSLASH && t[p + 1] == 117 && Hex4(t, p + 2).Some?
    ensures var h := t[p + 2..p + 6];
            IsHex(h) && HexOf(h) == Hex4(t, p + 2).value && At(t, p, [BACKSLASH, 117] + h)
  {
    assert t[p..p + 6] == [BACKSLASH, 117] + t[p + 2..p + 6];
  }

  /** An escape that is decoded: as a character of the grammar. */
  lemma DecodedIsEscape(t: seq<byte>, p: nat) returns (c: Char)
    requires p + 1 < |t| && t[p] == BACKSLASH && t[p + 1] == 117 && PieceAt(t, p, true).Some?
    ensures IsEscape(c) && At(t, p, PrintChar(c)) && PieceAt(t, p, true).value.next == p + |PrintChar(c)|
    ensures PieceAt(t, p, true).value.bytes == Utf8(Codepoint(c)).value
  {
    hide Utf8, Hex4, HexOf, IsHex, At;
    HexAt(t, p);
    var h := t[p + 2..p + 6];
    HexHasFour(h);
    if !IsHigh(HexOf(h)) {
      c := Char.Unicode(h);
      ScalarHasForm(HexOf(h));
    } else {
      HexAt(t, p + 6);
      var l := t[p + 8..p + 12];
      HexHasFour(l);
      AtConcat(t, p, [BACKSLASH, 117] + h, [BACKSLASH, 117] + l);
      c := Pair(h, l);
    }
  }

  lemma HexHasFour(h: seq<byte>)
    requires IsHex(h)
    ensures |h| == 4
  {}

  lemma ScalarHasForm(cp: nat)
    ensures Utf8(cp).Some? <==> IsScalar(cp)
  {}

  lemma KeptIsLonger(c: Char)
    requires IsEscape(c)
    ensures |Utf8(Codepoint(c)).value| < |PrintChar(c)|
  {}

  /** Read both ways a string ends at the same place, and each escape in it is shorter when it is decoded. */
  lemma {:induction false} DecodedIsShorter(t: seq<byte>, p: nat, kept: seq<byte>, decoded: seq<byte>)
    requires IsText(t) && p < |t| && |decoded| <= |kept|
    requires Unescape(t, p, kept, false).Some? && Unescape(t, p, decoded, true).Some?
    ensures var k, d := Unescape(t, p, kept, false).value, Unescape(t, p, decoded, true).value;
            k.next == d.next && |d.bytes| <= |k.bytes|
                && (|decoded| < |kept| || !NoUnicode(t, p) ==> |d.bytes| < |k.bytes|)
    decreases |t| - p
  {
    hide PieceAt, Unescape, PrintChar, IsEscape;
    if t[p] == 0 || t[p] == QUOTE {
      AtTheEnd(t, p, kept, decoded);
    } else {
      UnescapeStep(t, p, decoded, true);
      var x := PieceAt(t, p, true).value;
      if t[p] == BACKSLASH && t[p + 1] == 117 {
        var c := DecodedIsEscape(t, p);
        KeptIsLonger(c);
        EscapeStays(t, p, c, kept);
        DecodedIsShorter(t, x.next, kept + PrintChar(c), decoded + x.bytes);
      } else {
        UnescapeStep(t, p, kept, false);
        SamePiece(t, p);
        DecodedIsShorter(t, x.next, kept + x.bytes, decoded + x.bytes);
      }
    }
  }

  lemma AtTheEnd(t: seq<byte>, p: nat, kept: seq<byte>, decoded: seq<byte>)
    requires IsText(t) && p < |t| && (t[p] == 0 || t[p] == QUOTE)
    ensures Unescape(t, p, kept, false) == if t[p] == 0 then None else Some(Piece(kept, p + 1))
    ensures Unescape(t, p, decoded, true) == if t[p] == 0 then None else Some(Piece(decoded, p + 1))
    ensures NoUnicode(t, p)
  {}

  lemma EscapeStays(t: seq<byte>, p: nat, c: Char, before: seq<byte>)
    requires IsText(t) && IsEscape(c) && At(t, p, PrintChar(c)) && p + |PrintChar(c)| < |t|
    ensures Unescape(t, p, before, false) == Unescape(t, p + |PrintChar(c)|, before + PrintChar(c), false)
  {
    hide At, Unescape, HexOf;
    match c {
      case Unicode(h) =>
        EscapeIsKept(t, p, h, before);
      case Pair(h, l) =>
        var mark: seq<byte> := [BACKSLASH, 117];
        AtConcat(t, p, mark + h, mark + l);
        EscapeIsKept(t, p, h, before);
        EscapeIsKept(t, p + 6, l, before + (mark + h));
        Assoc(before, mark + h, mark + l);
    }
  }

  /** Any string that is closed, well-formed or not: it is read alike with and without an encoder exactly
      when no piece of it is a unicode escape. */
  lemma UnescapeAgreesIff(t: seq<byte>, p: nat)
    requires IsText(t) && p < |t| && Unescape(t, p, [], false).Some?
    ensures Unescape(t, p, [], false) == Unescape(t, p, [], true) <==> NoUnicode(t, p)
  {
    hide Unescape, NoUnicode;
    if NoUnicode(t, p) {
      SameWithoutUnicode(t, p, []);
    } else if Unescape(t, p, [], true).Some? {
      DecodedIsShorter(t, p, [], []);
    }
  }

  // ---------------------------------------------------------------- strings of the grammar

  lemma WholeString(s: seq<byte>)
    requires 0 !in s
    ensures UpToNul(s) == s
  {
    assert forall k :: 0 <= k < |s| ==> s[k] != 0;
  }

  lemma Utf8HasNoZero(cp: nat)
    requires cp != 0 && Utf8(cp).Some?
    ensures 0 !in Utf8(cp).value
  {}

  lemma CharHasNoZero(c: Char, utf8: bool)
    requires ValidChar(c)
    ensures 0 !in DenoteChar(c, utf8)
  {
    hide Utf8, HexOf;
    if IsEscape(c) {
      if utf8 {
        Utf8HasNoZero(Codepoint(c));
      } else {
        EscapeHasNoZero(c);
      }
    }
  }

  lemma EscapeHasNoZero(c: Char)
    requires IsEscape(c)
    ensures 0 !in PrintChar(c)
  {
    hide HexOf, IsHex, IsScalar, IsHigh, IsLow;
    match c {
      case Unicode(h) =>
        MarkedHasNoZero(h);
      case Pair(h, l) =>
        MarkedHasNoZero(h);
        MarkedHasNoZero(l);
    }
  }

  lemma MarkedHasNoZero(h: seq<byte>)
    requires IsHex(h)
    ensures 0 !in [BACKSLASH, 117] + h
  {
    HexIsPlain(h);
    assert [BACKSLASH, 117] + h == [BACKSLASH] + ([117] + h);
  }

  lemma {:induction false} CharsHaveNoZero(cs: seq<Char>, utf8: bool)
    requires ValidChars(cs)
    ensures 0 !in DenoteChars(cs, utf8)
  {
    hide ValidChar, DenoteChar;
    if cs != [] {
      CharHasNoZero(cs[0], utf8);
      CharsHaveNoZero(cs[1..], utf8);
    }
  }

  /** Some character of the string is a unicode escape. */
  predicate HasUnicodeChar(cs: seq<Char>) {
    cs != [] && (cs[0].Unicode? || cs[0].Pair? || HasUnicodeChar(cs[1..]))
  }

  lemma CharKept(c: Char)
    requires ValidChar(c)
    ensures if c.Unicode? || c.Pair? then |DenoteChar(c, true)| < |DenoteChar(c, false)|
            else DenoteChar(c, true) == DenoteChar(c, false)
  {
    if c.Unicode? || c.Pair? {
      KeptIsLonger(c);
    }
  }

  lemma {:induction false} CharsKept(cs: seq<Char>)
    requires ValidChars(cs)
    ensures if HasUnicodeChar(cs) then |DenoteChars(cs, true)| < |DenoteChars(cs, false)|
            else DenoteChars(cs, true) == DenoteChars(cs, false)
  {
    hide ValidChar, DenoteChar;
    if cs != [] {
      CharKept(cs[0]);
      CharsKept(cs[1..]);
    }
  }
}
