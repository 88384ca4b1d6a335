/**
 Strings in a JSON text: they are unescaped into the very buffer that is being read. A text is a
 buffer that ends in a zero byte.
 */
module JsonText {
  import opened Bytes
  import opened Pieces

  ghost predicate IsText(t: seq<byte>) {
    |t| > 0 && t[|t| - 1] == 0
  }

  const QUOTE: byte := 34
  const BACKSLASH: byte := 92
  const SLASH: byte := 47
  const STAR: byte := 42
  const NEWLINE: byte := 10
  const COMMA: byte := 44
  const COLON: byte := 58

  // ---------------------------------------------------------------- characters

  function HexVal(c: byte): int {
    if 48 <= c <= 57 then c - 48 else if 97 <= c <= 102 then c - 87 else if 65 <= c <= 70 then c - 55 else -1
  }

  /** Four hexadecimal digits at p. */
  function Hex4(t: seq<byte>, p: nat): Option<nat> {
    if p + 4 <= |t| && HexVal(t[p]) >= 0 && HexVal(t[p + 1]) >= 0 && HexVal(t[p + 2]) >= 0 && HexVal(t[p + 3]) >= 0 then
      Some(HexVal(t[p]) * 4096 + HexVal(t[p + 1]) * 256 + HexVal(t[p + 2]) * 16 + HexVal(t[p + 3]))
    else None
  }

  /** The UTF-8 form of a code point; surrogates have none. */
  function Utf8(cp: nat): Option<seq<byte>> {
    if cp < 0x80 then Some([cp])
    else if cp < 0x800 then Some([192 + cp / 64, 128 + cp % 64])
    else if 0xd800 <= cp < 0xe000 then None
    else if cp < 0x10000 then Some([224 + cp / 4096, 128 + cp / 64 % 64, 128 + cp % 64])
    else if cp < 0x110000 then Some([240 + cp / 262144, 128 + cp / 4096 % 64, 128 + cp / 64 % 64, 128 + cp % 64])
    else None
  }

  /** A unicode escape: its code point and what follows it. */
  datatype Unicode = Unicode(cp: nat, next: nat)

  predicate IsHigh(cp: nat) {
    cp / 0x400 == 0x36
  }

  predicate IsLow(cp: nat) {
    cp / 0x400 == 0x37
  }

  /** The escape whose backslash is at p; a high surrogate needs a low one behind it. */
  function UnicodeAt(t: seq<byte>, p: nat): Option<Unicode> {
    var h := Hex4(t, p + 2);
    if h == None then None
    else if !IsHigh(h.value) then Some(Unicode(h.value, p + 6))
    else if p + 8 > |t| || t[p + 6] != BACKSLASH || t[p + 7] != 117 then None
    else
      var l := Hex4(t, p + 8);
      if l == None || !IsLow(l.value) then None
      else Some(Unicode(0x10000 + (h.value - 0xd800) * 0x400 + (l.value - 0xdc00), p + 12))
  }

  /** One piece of a string: the bytes it stands for and what follows it. */
  datatype Piece = Piece(bytes: seq<byte>, next: nat)

  function Control(c: byte): Option<byte> {
    if c == 98 then Some(8) else if c == 102 then Some(12) else if c == 110 then Some(10)
    else if c == 114 then Some(13) else if c == 116 then Some(9) else None
  }

  /** What stands at p in a string; unknown escapes are left as they are, and without an encoder so are
      unicode escapes. */
  function PieceAt(t: seq<byte>, p: nat, utf8: bool): Option<Piece>
    requires p + 1 < |t|
  {
    var c := t[p];
    if c != BACKSLASH then Some(Piece([c], p + 1))
    else
      var e := t[p + 1];
      if e == BACKSLASH || e == SLASH || e == QUOTE then Some(Piece([e], p + 2))
      else if Control(e).Some? then Some(Piece([Control(e).value], p + 2))
      else if e != 117 || !utf8 then Some(Piece([c], p + 1))
      else
        var u := UnicodeAt(t, p);
        if u == None || Utf8(u.value.cp) == None then None else Some(Piece(Utf8(u.value.cp).value, u.value.next))
  }

  lemma PieceFits(t: seq<byte>, p: nat, utf8: bool)
    requires IsText(t) && p + 1 < |t| && t[p] != 0
    ensures var x := PieceAt(t, p, utf8); x.Some? ==> p + |x.value.bytes| <= x.value.next < |t| && x.value.bytes != []
  {}

  /** The string from p on, behind what is already unescaped, up to its closing quote. */
  function Unescape(t: seq<byte>, p: nat, before: seq<byte>, utf8: bool): Option<Piece>
    requires IsText(t) && p < |t|
    decreases |t| - p
  {
    if t[p] == 0 then None
    else if t[p] == QUOTE then Some(Piece(before, p + 1))
    else
      PieceFits(t, p, utf8);
      var x := PieceAt(t, p, utf8);
      if x == None then None else Unescape(t, x.value.next, before + x.value.bytes, utf8)
  }

  /** A C string ends at its first zero byte. */
  function UpToNul(s: seq<byte>): (r: seq<byte>)
    ensures 0 !in r && r <= s && (r == s || s[|r|] == 0)
  {
    if s == [] || s[0] == 0 then [] else [s[0]] + UpToNul(s[1..])
  }

  /** The C string s is in the buffer at a place. */
  ghost predicate StringAt(b: seq<byte>, at: nat, s: seq<byte>) {
    at + |s| < |b| && b[at..at + |s|] == s && b[at + |s|] == 0 && 0 !in s
  }

  // ---------------------------------------------------------------- unescaping in place

  /** Writes the UTF-8 form of a code point. */
  method UnicodeToUtf8(codepoint: nat, buf: array<byte>, d: nat) returns (ok: bool, end: nat)
    requires d + 4 <= buf.Length
    modifies buf
    ensures ok == Utf8(codepoint).Some?
    ensures ok ==> end == d + |Utf8(codepoint).value| && buf[d..end] == Utf8(codepoint).value
    ensures forall i :: 0 <= i < d || (if ok then end else d) <= i < buf.Length ==> buf[i] == old(buf[i])
  {
    if codepoint < 0x80 {
      buf[d] := codepoint;
      return true, d + 1;
    } else if codepoint < 0x800 {
      buf[d], buf[d + 1] := 192 + codepoint / 64, 128 + codepoint % 64;
      return true, d + 2;
    } else if 0xd800 <= codepoint < 0xe000 {
      return false, d;
    } else if codepoint < 0x10000 {
      buf[d], buf[d + 1], buf[d + 2] := 224 + codepoint / 4096, 128 + codepoint / 64 % 64, 128 + codepoint % 64;
      return true, d + 3;
    } else if codepoint < 0x110000 {
      buf[d], buf[d + 1] := 240 + codepoint / 262144, 128 + codepoint / 4096 % 64;
      buf[d + 2], buf[d + 3] := 128 + codepoint / 64 % 64, 128 + codepoint % 64;
      return true, d + 4;
    }
    return false, d;
  }

  /** Reads four hexadecimal digits, none of them behind the first that is missing. */
  method ReadHex4(buf: array<byte>, p: nat) returns (h: Option<nat>)
    requires p < buf.Length && buf[buf.Length - 1] == 0
    ensures h == Hex4(buf[..], p)
  {
    var h1 := HexVal(buf[p]);
    if h1 < 0 {
      return None;
    }
    var h2 := HexVal(buf[p + 1]);
    if h2 < 0 {
      return None;
    }
    var h3 := HexVal(buf[p + 2]);
    if h3 < 0 {
      return None;
    }
    var h4 := HexVal(buf[p + 3]);
    if h4 < 0 {
      return None;
    }
    return Some(h1 * 4096 + h2 * 256 + h3 * 16 + h4);
  }

  method ReadUnicode(buf: array<byte>, p: nat) returns (u: Option<Unicode>)
    requires p + 2 < buf.Length && buf[buf.Length - 1] == 0
    ensures u == UnicodeAt(buf[..], p)
  {
    var h := ReadHex4(buf, p + 2);
    if h == None {
      return None;
    }
    var codepoint := h.value;
    if IsHigh(codepoint) {
      if buf[p + 6] != BACKSLASH || buf[p + 7] != 117 {
        return None;
      }
      var l := ReadHex4(buf, p + 8);
      if l == None {
        return None;
      }
      if !IsLow(l.value) {
        return None;
      }
      return Some(Unicode(0x10000 + (codepoint - 0xd800) * 0x400 + (l.value - 0xdc00), p + 12));
    }
    return Some(Unicode(codepoint, p + 6));
  }

  lemma SameUnicode(a: seq<byte>, b: seq<byte>, p: nat)
    requires |a| == |b| && forall i :: p <= i < |a| ==> a[i] == b[i]
    ensures UnicodeAt(a, p) == UnicodeAt(b, p)
  {}

  /** Unescapes one piece at the read cursor p to the write cursor d. */
  method UnescapePiece(buf: array<byte>, d: nat, p: nat, utf8: bool, ghost t: seq<byte>)
    returns (ok: bool, dNext: nat, next: nat)
    requires IsText(t) && buf.Length == |t| && d <= p && p + 1 < |t| && t[p] != 0 && t[p] != QUOTE
    requires forall i :: p <= i < |t| ==> buf[i] == t[i]
    modifies buf
    ensures ok == PieceAt(t, p, utf8).Some?
    ensures ok ==> var x := PieceAt(t, p, utf8).value;
                   next == x.next && dNext == d + |x.bytes| && dNext <= next < |t| && buf[d..dNext] == x.bytes
    ensures forall i :: 0 <= i < d || (ok && dNext <= i < |t|) ==> buf[i] == old(buf[i])
  {
    hide UnicodeAt, Utf8;
    PieceFits(t, p, utf8);
    var c := buf[p];
    if c != BACKSLASH {
      buf[d] := c;
      return true, d + 1, p + 1;
    }
    var e := buf[p + 1];
    if e == BACKSLASH || e == SLASH || e == QUOTE {
      buf[d] := e;
      return true, d + 1, p + 2;
    }
    if e == 98 || e == 102 || e == 110 || e == 114 || e == 116 {
      buf[d] := if e == 98 then 8 else if e == 102 then 12 else if e == 110 then 10 else if e == 114 then 13 else 9;
      return true, d + 1, p + 2;
    }
    if e != 117 || !utf8 {
      buf[d] := c;
      return true, d + 1, p + 1;
    }
    var u := ReadUnicode(buf, p);
    SameUnicode(buf[..], t, p);
    if u == None {
      return false, d, p;
    }
    UnicodeEnds(t, p);
    ok, dNext := UnicodeToUtf8(u.value.cp, buf, d);
    next := u.value.next;
  }

  lemma UnicodeEnds(t: seq<byte>, p: nat)
    requires IsText(t) && UnicodeAt(t, p).Some?
    ensures p + 6 <= UnicodeAt(t, p).value.next < |t|
  {}

  /** Unescapes the string whose first character is at s, into its own place. The write cursor never
      passes the read cursor, so nothing that is still to be read is changed. */
  method UnescapeString(buf: array<byte>, s: nat, utf8: bool, ghost t: seq<byte>) returns (ok: bool, end: nat)
    requires IsText(t) && buf.Length == |t| && s < |t|
    requires forall i :: s <= i < |t| ==> buf[i] == t[i]
    modifies buf
    ensures ok == Unescape(t, s, [], utf8).Some?
    ensures ok ==> var x := Unescape(t, s, [], utf8).value;
                   end == x.next && s < end < |t| && StringAt(buf[..end], s, UpToNul(x.bytes))
    ensures forall i :: 0 <= i < s ==> buf[i] == old(buf[i])
    ensures ok ==> forall i :: end <= i < |t| ==> buf[i] == t[i]
  {
    hide PieceAt, UpToNul, StringAt;
    var p, d := s, s;
    ghost var done: seq<byte> := [];
    while buf[p] != 0
      invariant s <= d <= p < |t| && d == s + |done| && buf[s..d] == done
      invariant Unescape(t, s, [], utf8) == Unescape(t, p, done, utf8)
      invariant forall i :: 0 <= i < s ==> buf[i] == old(buf[i])
      invariant forall i :: p <= i < |t| ==> buf[i] == t[i]
      decreases |t| - p
    {
      if buf[p] == QUOTE {
        buf[d] := 0;
        assert buf[s..d] == done;
        CutAtNul(buf[..p + 1], s, done);
        return true, p + 1;
      }
      PieceFits(t, p, utf8);
      ghost var x := PieceAt(t, p, utf8);
      var dNext, next;
      ok, dNext, next := UnescapePiece(buf, d, p, utf8, t);
      if !ok {
        return false, p;
      }
      assert buf[s..dNext] == done + x.value.bytes by {
        assert buf[s..d] == done;
        assert buf[s..dNext] == buf[s..d] + buf[d..dNext];
      }
      done := done + x.value.bytes;
      d, p := dNext, next;
    }
    return false, p;
  }

  lemma CutAtNul(b: seq<byte>, at: nat, s: seq<byte>)
    requires at + |s| < |b| && b[at..at + |s|] == s && b[at + |s|] == 0
    ensures StringAt(b, at, UpToNul(s))
  {
    hide UpToNul;
    UpToNulIsPrefix(s);
    StringCut(b, at, s, |UpToNul(s)|);
  }

  lemma UpToNulIsPrefix(s: seq<byte>)
    ensures |UpToNul(s)| <= |s| && UpToNul(s) == s[..|UpToNul(s)|] && 0 !in s[..|UpToNul(s)|]
  {
    hide UpToNul;
  }

  lemma StringCut(b: seq<byte>, at: nat, s: seq<byte>, k: nat)
    requires k <= |s| && at + |s| < |b| && b[at..at + |s|] == s && b[at + |s|] == 0 && 0 !in s[..k]
             && (k < |s| ==> s[k] == 0)
    ensures StringAt(b, at, s[..k])
  {
    assert b[at..at + k] == s[..k] by {
      assert s == s[..k] + s[k..];
      AtConcat(b, at, s[..k], s[k..]);
    }
    assert b[at + k] == 0 by {
      if k < |s| {
        AtIndex(b, at, s, k);
      }
    }
  }
}
