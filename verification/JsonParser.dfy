/**
 The JSON parser: lenient about separators and comments, and in place: strings stay in the text, where
 the tree points to them.
 */
module JsonParser {
  import opened Bytes
  import opened Pieces
  import opened JsonNumbers
  import opened JsonText

  // ---------------------------------------------------------------- the value of a text

  datatype Field = Field(key: seq<byte>, value: Json)

  datatype Json =
    | Null
    | Bool(b: bool)
    | Int(n: int)
    | Double(x: real)
    | Str(s: seq<byte>)
    | Arr(items: seq<Json>)
    | Obj(fields: seq<Field>)

  /** How parsing at a place ends: there may be no value in front of a closing bracket. */
  datatype Parsed = Fail | Done(child: Option<Json>, next: nat)

  datatype KeyResult = NoKey | Key(key: seq<byte>, next: nat) | Close(next: nat)

  predicate IsWhitespace(c: byte) {
    c <= 32
  }

  predicate IsSkipped(c: byte) {
    c == 32 || c == 9 || c == 10 || c == 13 || c == COMMA
  }

  const OPEN_BRACE: byte := 123
  const CLOSE_BRACE: byte := 125
  const OPEN_BRACKET: byte := 91
  const CLOSE_BRACKET: byte := 93

  /** The first c from p on, if it comes before the end. */
  function FindChar(t: seq<byte>, p: nat, c: byte): (r: Option<nat>)
    requires IsText(t) && p < |t| && c != 0
    ensures r.Some? ==> p <= r.value < |t| - 1 && t[r.value] == c
    decreases |t| - p
  {
    if t[p] == c then Some(p) else if t[p] == 0 then None else FindChar(t, p + 1, c)
  }

  /** The end of a block comment: a slash right behind a star, looked for from behind p. */
  function BlockEnd(t: seq<byte>, p: nat): (r: Option<nat>)
    requires IsText(t) && p + 1 < |t|
    ensures r.Some? ==> p + 1 < r.value < |t|
    decreases |t| - p
  {
    var q := FindChar(t, p + 1, SLASH);
    if q == None then None else if t[q.value - 1] == STAR then Some(q.value + 1) else BlockEnd(t, q.value)
  }

  /** The end of the comment whose slash is at p. */
  function CommentEnd(t: seq<byte>, p: nat): (r: Option<nat>)
    requires IsText(t) && p + 1 < |t|
    ensures r.Some? ==> p + 1 < r.value < |t|
  {
    if t[p + 1] == SLASH then
      var q := FindChar(t, p + 2, NEWLINE);
      if q == None then None else Some(q.value + 1)
    else if t[p + 1] == STAR && t[p + 2] != 0 then BlockEnd(t, p + 2)
    else None
  }

  function SkipWhitespace(t: seq<byte>, p: nat): (r: nat)
    requires IsText(t) && p < |t|
    ensures p <= r < |t|
    decreases |t| - p
  {
    if t[p] != 0 && IsWhitespace(t[p]) then SkipWhitespace(t, p + 1) else p
  }

  /** The key of the next member and where its value starts, or the closing brace. */
  function KeyAt(t: seq<byte>, p: nat, utf8: bool): (r: KeyResult)
    requires IsText(t) && p < |t|
    ensures r.Key? ==> p < r.next < |t|
    ensures r.Close? ==> p <= r.next < |t| && t[r.next] == CLOSE_BRACE
    decreases |t| - p
  {
    var c := t[p];
    if c == 0 then NoKey
    else if c == QUOTE then
      var x := Unescape(t, p + 1, [], utf8);
      if x == None then NoKey
      else
        UnescapeEnds(t, p + 1, [], utf8);
        var q := SkipWhitespace(t, x.value.next);
        if t[q] == COLON then Key(UpToNul(x.value.bytes), q + 1) else NoKey
    else if IsWhitespace(c) || c == COMMA then KeyAt(t, p + 1, utf8)
    else if c == CLOSE_BRACE then Close(p)
    else if c == SLASH then
      var q := CommentEnd(t, p);
      if q == None then NoKey else KeyAt(t, q.value, utf8)
    else NoKey
  }

  lemma UnescapeEnds(t: seq<byte>, p: nat, before: seq<byte>, utf8: bool)
    requires IsText(t) && p < |t|
    ensures var x := Unescape(t, p, before, utf8); x.Some? ==> p < x.value.next < |t|
    decreases |t| - p
  {
    hide PieceAt;
    if t[p] != 0 && t[p] != QUOTE {
      PieceFits(t, p, utf8);
      var x := PieceAt(t, p, utf8);
      if x.Some? {
        UnescapeEnds(t, x.value.next, before + x.value.bytes, utf8);
      }
    }
  }

  // ---------------------------------------------------------------- numbers

  /** A number ends where strtol stops, or is read as a real number. */
  function NumberAt(t: seq<byte>, p: nat): Parsed
    requires IsText(t) && p < |t|
  {
    var n := StrToL(t, p);
    if n.1 == p then Fail
    else if EndsReal(t[n.1]) then
      var d := StrToD(t, p);
      Done(Some(Double(d.0)), d.1)
    else Done(Some(Int(n.0)), n.1)
  }

  // ---------------------------------------------------------------- values

  const TRUE_WORD: seq<byte> := [116, 114, 117, 101]
  const FALSE_WORD: seq<byte> := [102, 97, 108, 115, 101]
  const NULL_WORD: seq<byte> := [110, 117, 108, 108]

  function WordAt(t: seq<byte>, p: nat, word: seq<byte>, v: Json): Parsed {
    if p + |word| <= |t| && t[p..p + |word|] == word then Done(Some(v), p + |word|) else Fail
  }

  /** The value from p on. */
  function ValueAt(t: seq<byte>, p: nat, utf8: bool): (r: Parsed)
    requires IsText(t) && p < |t|
    ensures r.Done? ==> p <= r.next < |t| && if r.child == None then t[r.next] == CLOSE_BRACKET else p < r.next
    decreases |t| - p, 1
  {
    var c := t[p];
    if c == 0 then Fail
    else if IsSkipped(c) then ValueAt(t, p + 1, utf8)
    else if c == OPEN_BRACE then MembersAt(t, p + 1, [], utf8)
    else if c == OPEN_BRACKET then ElementsAt(t, p + 1, [], utf8)
    else if c == CLOSE_BRACKET then Done(None, p)
    else if c == QUOTE then
      var x := Unescape(t, p + 1, [], utf8);
      UnescapeEnds(t, p + 1, [], utf8);
      if x == None then Fail else Done(Some(Str(UpToNul(x.value.bytes))), x.value.next)
    else if StartsNumber(c) then NumberAt(t, p)
    else if c == 116 then WordEnds(t, p, TRUE_WORD); WordAt(t, p, TRUE_WORD, Bool(true))
    else if c == 102 then WordEnds(t, p, FALSE_WORD); WordAt(t, p, FALSE_WORD, Bool(false))
    else if c == 110 then WordEnds(t, p, NULL_WORD); WordAt(t, p, NULL_WORD, Null)
    else if c == SLASH then
      var q := CommentEnd(t, p);
      if q == None then Fail else ValueAt(t, q.value, utf8)
    else Fail
  }

  /** The elements of an array from p on, behind those already read. A comma is not required. */
  function ElementsAt(t: seq<byte>, p: nat, items: seq<Json>, utf8: bool): (r: Parsed)
    requires IsText(t) && p < |t|
    ensures r.Done? ==> p < r.next < |t| && r.child.Some?
    decreases |t| - p, 2
  {
    var v := ValueAt(t, p, utf8);
    if !v.Done? then v
    else
      var all := if v.child.Some? then items + [v.child.value] else items;
      if t[v.next] == CLOSE_BRACKET then Done(Some(Arr(all)), v.next + 1) else ElementsAt(t, v.next, all, utf8)
  }

  /** The members of an object. A closing brace right behind a colon ends it, too. */
  function MembersAt(t: seq<byte>, p: nat, fields: seq<Field>, utf8: bool): (r: Parsed)
    requires IsText(t) && p < |t|
    ensures r.Done? ==> p < r.next < |t| && r.child.Some?
    decreases |t| - p, 2
  {
    var k := KeyAt(t, p, utf8);
    if k.NoKey? then Fail
    else if t[k.next] == CLOSE_BRACE then Done(Some(Obj(fields)), k.next + 1)
    else
      var v := ValueAt(t, k.next, utf8);
      if !v.Done? then v
      else MembersAt(t, v.next, if v.child.Some? then fields + [Field(k.key, v.child.value)] else fields, utf8)
  }

  lemma WordEnds(t: seq<byte>, p: nat, word: seq<byte>)
    requires IsText(t) && word != [] && word[|word| - 1] != 0
    ensures p + |word| <= |t| && t[p..p + |word|] == word ==> p + |word| < |t|
  {
    if p + |word| <= |t| && t[p..p + |word|] == word {
      assert t[p..p + |word|][|word| - 1] == t[p + |word| - 1];
    }
  }

  // ---------------------------------------------------------------- the tree

  /** The tree the parser builds: strings and keys are places in the buffer. */
  datatype Node =
    | NullNode
    | BoolNode(b: bool)
    | IntNode(n: int)
    | DoubleNode(x: real)
    | StringNode(at: nat)
    | ArrayNode(items: seq<Node>)
    | ObjectNode(keys: seq<nat>, values: seq<Node>)

  /** The tree, read in the buffer b, is the value. */
  ghost predicate Stands(x: Node, b: seq<byte>, v: Json)
    decreases x
  {
    match x
    case NullNode => v == Null
    case BoolNode(c) => v == Bool(c)
    case IntNode(n) => v == Int(n)
    case DoubleNode(y) => v == Double(y)
    case StringNode(at) => v.Str? && StringAt(b, at, v.s)
    case ArrayNode(items) => v.Arr? && AllStand(items, b, v.items)
    case ObjectNode(keys, values) => v.Obj? && FieldsStand(keys, values, b, v.fields)
  }

  ghost predicate AllStand(xs: seq<Node>, b: seq<byte>, vs: seq<Json>)
    decreases xs
  {
    |xs| == |vs| && forall i :: 0 <= i < |xs| ==> Stands(xs[i], b, vs[i])
  }

  ghost predicate FieldsStand(keys: seq<nat>, xs: seq<Node>, b: seq<byte>, vs: seq<Field>)
    decreases xs
  {
    && |keys| == |xs| == |vs|
    && forall i :: 0 <= i < |xs| ==> StringAt(b, keys[i], vs[i].key) && Stands(xs[i], b, vs[i].value)
  }

  /** What is not written to any more keeps its value. */
  lemma {:induction false} StandsLonger(x: Node, a: seq<byte>, b: seq<byte>, v: Json)
    requires Stands(x, a, v) && a <= b
    ensures Stands(x, b, v)
    decreases x
  {
    match x
    case StringNode(at) => StringLonger(a, b, at, v.s);
    case ArrayNode(items) => AllStandLonger(items, a, b, v.items);
    case ObjectNode(keys, values) => FieldsStandLonger(keys, values, a, b, v.fields);
    case NullNode =>
    case BoolNode(c) =>
    case IntNode(n) =>
    case DoubleNode(y) =>
  }

  lemma StringLonger(a: seq<byte>, b: seq<byte>, at: nat, s: seq<byte>)
    requires StringAt(a, at, s) && a <= b
    ensures StringAt(b, at, s)
  {
    assert b[at..at + |s|] == a[at..at + |s|];
  }

  lemma {:induction false} AllStandLonger(xs: seq<Node>, a: seq<byte>, b: seq<byte>, vs: seq<Json>)
    requires AllStand(xs, a, vs) && a <= b
    ensures AllStand(xs, b, vs)
    decreases xs
  {
    forall i | 0 <= i < |xs|
      ensures Stands(xs[i], b, vs[i])
    {
      StandsLonger(xs[i], a, b, vs[i]);
    }
  }

  lemma {:induction false} FieldsStandLonger(keys: seq<nat>, xs: seq<Node>, a: seq<byte>, b: seq<byte>, vs: seq<Field>)
    requires FieldsStand(keys, xs, a, vs) && a <= b
    ensures FieldsStand(keys, xs, b, vs)
    decreases xs
  {
    forall i | 0 <= i < |xs|
      ensures StringAt(b, keys[i], vs[i].key) && Stands(xs[i], b, vs[i].value)
    {
      StringLonger(a, b, keys[i], vs[i].key);
      StandsLonger(xs[i], a, b, vs[i].value);
    }
  }

  // ---------------------------------------------------------------- parsing in place

  /** How the parser ends. */
  datatype Outcome = Failed | Parsed(child: Option<Node>, next: nat)

  /** The part of the buffer that is still to be read is the text's. */
  ghost predicate Unread(b: seq<byte>, p: nat, t: seq<byte>) {
    |b| == |t| && forall i :: p <= i < |t| ==> b[i] == t[i]
  }

  /** The outcome is that of the pure parser on the text, read in the buffer. */
  ghost predicate Matches(o: Outcome, r: Parsed, b: seq<byte>) {
    match r
    case Fail => o == Failed
    case Done(child, next) =>
      && o.Parsed? && o.next == next <= |b| && o.child.Some? == child.Some?
      && (child.Some? ==> Stands(o.child.value, b[..next], child.value))
  }

  method StrChr(buf: array<byte>, p: nat, c: byte, ghost t: seq<byte>) returns (r: Option<nat>)
    requires IsText(t) && p < |t| && c != 0 && Unread(buf[..], p, t)
    ensures r == FindChar(t, p, c)
  {
    var i := p;
    while buf[i] != c
      invariant p <= i < |t| && FindChar(t, p, c) == FindChar(t, i, c)
      decreases |t| - i
    {
      if buf[i] == 0 {
        return None;
      }
      i := i + 1;
    }
    return Some(i);
  }

  method SkipBlockComment(buf: array<byte>, start: nat, ghost t: seq<byte>) returns (r: Option<nat>)
    requires IsText(t) && start < |t| && Unread(buf[..], start, t)
    ensures r == if t[start] == 0 then None else BlockEnd(t, start)
  {
    var p := start;
    if buf[p] == 0 {
      return None;
    }
    while true
      invariant start <= p && p + 1 < |t| && BlockEnd(t, start) == BlockEnd(t, p)
      decreases |t| - p
    {
      var q := StrChr(buf, p + 1, SLASH, t);
      if q == None {
        return None;
      }
      p := q.value;
      if buf[p - 1] == STAR {
        return Some(p + 1);
      }
    }
  }

  method SkipComment(buf: array<byte>, p: nat, ghost t: seq<byte>) returns (r: Option<nat>)
    requires IsText(t) && p + 1 < |t| && Unread(buf[..], p, t)
    ensures r == CommentEnd(t, p)
  {
    if buf[p + 1] == SLASH {
      var q := StrChr(buf, p + 2, NEWLINE, t);
      if q == None {
        return None;
      }
      return Some(q.value + 1);
    } else if buf[p + 1] == STAR {
      r := SkipBlockComment(buf, p + 2, t);
    } else {
      return None;
    }
  }

  /** Reads a key; it stays where its quote was. */
  method ParseKey(buf: array<byte>, start: nat, utf8: bool, ghost t: seq<byte>) returns (ok: bool, key: nat, next: nat)
    requires IsText(t) && start < |t| && Unread(buf[..], start, t)
    modifies buf
    ensures forall i :: 0 <= i < start ==> buf[i] == old(buf[i])
    ensures match KeyAt(t, start, utf8)
            case NoKey => !ok
            case Close(n) => ok && next == n && Unread(buf[..], next, t)
            case Key(k, n) => ok && next == n && Unread(buf[..], next, t) && StringAt(buf[..next], key, k)
  {
    hide Unescape, UpToNul, CommentEnd, StringAt;
    var p := start;
    key := 0;
    while buf[p] != 0
      invariant start <= p < |t| && Unread(buf[..], p, t) && KeyAt(t, start, utf8) == KeyAt(t, p, utf8)
      invariant forall i :: 0 <= i < start ==> buf[i] == old(buf[i])
      decreases |t| - p
    {
      var c := buf[p];
      if c == QUOTE {
        var end;
        ok, end := UnescapeString(buf, p + 1, utf8, t);
        if !ok {
          return false, 0, p;
        }
        key := p + 1;
        next := SkipSpaces(buf, end, t);
        if buf[next] == COLON {
          StringLonger(buf[..end], buf[..next + 1], key, UpToNul(Unescape(t, p + 1, [], utf8).value.bytes));
          return true, key, next + 1;
        }
        return false, 0, next;
      } else if IsWhitespace(c) || c == COMMA {
        p := p + 1;
      } else if c == CLOSE_BRACE {
        return true, 0, p;
      } else if c == SLASH {
        var q := SkipComment(buf, p, t);
        if q == None {
          return false, 0, p;
        }
        p := q.value;
      } else {
        return false, 0, p;
      }
    }
    return false, 0, p;
  }

  method SkipSpaces(buf: array<byte>, p: nat, ghost t: seq<byte>) returns (q: nat)
    requires IsText(t) && p < |t| && Unread(buf[..], p, t)
    ensures q == SkipWhitespace(t, p)
  {
    q := p;
    while buf[q] != 0 && IsWhitespace(buf[q])
      invariant p <= q < |t| && SkipWhitespace(t, p) == SkipWhitespace(t, q)
      decreases |t| - q
    {
      q := q + 1;
    }
  }

  method ParseNumber(buf: array<byte>, p: nat, ghost t: seq<byte>) returns (o: Outcome)
    requires IsText(t) && p < |t| && Unread(buf[..], p, t)
    ensures Matches(o, NumberAt(t, p), buf[..])
  {
    hide StrToL, StrToD;
    SameNumber(buf[..], t, p);
    var n := StrToL(buf[..], p);
    if n.1 == p {
      return Failed;
    }
    if EndsReal(buf[n.1]) {
      SameReal(buf[..], t, p);
      var d := StrToD(buf[..], p);
      return Parsed(Some(DoubleNode(d.0)), d.1);
    }
    return Parsed(Some(IntNode(n.0)), n.1);
  }

  lemma {:induction false} SameDigits(b: seq<byte>, t: seq<byte>, p: nat, base: nat, m: nat)
    requires IsText(t) && IsText(b) && p < |t| && base <= 36 && Unread(b, p, t)
    ensures Digits(b, p, base, m) == Digits(t, p, base, m)
    decreases |t| - p
  {
    if DigitVal(t[p]) < base {
      SameDigits(b, t, p + 1, base, m * base + DigitVal(t[p]));
    }
  }

  lemma SameStart(b: seq<byte>, t: seq<byte>, p: nat)
    requires IsText(t) && p < |t| && Unread(b, p, t)
    ensures IsText(b) && BehindSign(b, p) == BehindSign(t, p)
    ensures IsHexadecimal(b, BehindSign(b, p)) == IsHexadecimal(t, BehindSign(t, p))
  {}

  lemma SameNumber(b: seq<byte>, t: seq<byte>, p: nat)
    requires IsText(t) && p < |t| && Unread(b, p, t)
    ensures IsText(b) && StrToL(b, p) == StrToL(t, p)
  {
    var q := BehindSign(t, p);
    var hex := IsHexadecimal(t, q);
    SameDigits(b, t, if hex then q + 2 else q, if hex then 16 else if t[q] == 48 then 8 else 10, 0);
  }

  lemma SameMantissa(b: seq<byte>, t: seq<byte>, p: nat, base: nat, m: nat)
    requires IsText(t) && IsText(b) && p < |t| && base <= 36 && Unread(b, p, t)
    ensures Mantissa(b, p, base, m) == Mantissa(t, p, base, m)
  {
    if t[p] == POINT {
      SameDigits(b, t, p + 1, base, m);
    }
  }

  lemma SameExponent(b: seq<byte>, t: seq<byte>, p: nat, mark: byte)
    requires IsText(t) && IsText(b) && p < |t| && 97 <= mark <= 122 && Unread(b, p, t)
    ensures ExponentAt(b, p, mark) == ExponentAt(t, p, mark)
  {
    if t[p] == mark || t[p] == mark - 32 {
      SameDigits(b, t, if t[p + 1] == PLUS || t[p + 1] == MINUS then p + 2 else p + 1, 10, 0);
    }
  }

  lemma SameReal(b: seq<byte>, t: seq<byte>, p: nat)
    requires IsText(t) && p < |t| && Unread(b, p, t) && StrToL(t, p).1 != p
    ensures IsText(b) && StrToL(b, p) == StrToL(t, p) && StrToD(b, p) == StrToD(t, p)
  {
    hide Digits, Mantissa, ExponentAt, StrToL, Power, BehindSign, IsHexadecimal;
    SameNumber(b, t, p);
    SameStart(b, t, p);
    var q := BehindSign(t, p);
    var hex := IsHexadecimal(t, q);
    var start, base := if hex then q + 2 else q, if hex then 16 else 10;
    var w := Digits(t, start, base, 0);
    SameDigits(b, t, start, base, 0);
    SameMantissa(b, t, w.1, base, w.0);
    SameExponent(b, t, Mantissa(t, w.1, base, w.0).2, if hex then 112 else 101);
  }

  /** One of the three words. */
  method ParseWord(buf: array<byte>, p: nat, word: seq<byte>, x: Node, ghost v: Json, ghost t: seq<byte>)
      returns (o: Outcome)
    requires IsText(t) && p < |t| && Unread(buf[..], p, t) && Stands(x, [], v)
    ensures Matches(o, WordAt(t, p, word, v), buf[..])
  {
    if p + |word| <= buf.Length && buf[p..p + |word|] == word {
      assert t[p..p + |word|] == buf[..][p..p + |word|];
      StandsLonger(x, [], buf[..p + |word|], v);
      return Parsed(Some(x), p + |word|);
    }
    assert p + |word| <= |t| ==> t[p..p + |word|] == buf[p..p + |word|];
    return Failed;
  }

  method ParseString(buf: array<byte>, p: nat, utf8: bool, ghost t: seq<byte>) returns (o: Outcome)
    requires IsText(t) && p < |t| && Unread(buf[..], p, t)
    modifies buf
    ensures var x := Unescape(t, p, [], utf8);
            Matches(o, if x == None then Fail else Done(Some(Str(UpToNul(x.value.bytes))), x.value.next), buf[..])
    ensures forall i :: 0 <= i < p ==> buf[i] == old(buf[i])
    ensures o.Parsed? ==> Unread(buf[..], o.next, t)
  {
    hide Unescape, UpToNul;
    var ok, end := UnescapeString(buf, p, utf8, t);
    if !ok {
      return Failed;
    }
    return Parsed(Some(StringNode(p)), end);
  }

  method ParseValue(buf: array<byte>, start: nat, utf8: bool, ghost t: seq<byte>) returns (o: Outcome)
    requires IsText(t) && start < |t| && Unread(buf[..], start, t)
    modifies buf
    ensures Matches(o, ValueAt(t, start, utf8), buf[..])
    ensures forall i :: 0 <= i < start ==> buf[i] == old(buf[i])
    ensures o.Parsed? ==> Unread(buf[..], o.next, t)
    decreases |t| - start, 1
  {
    hide Unescape, UpToNul, CommentEnd, Stands, NumberAt, WordAt, ElementsAt, MembersAt, TRUE_WORD, FALSE_WORD,
        NULL_WORD;
    var p := start;
    while true
      invariant start <= p < |t| && Unread(buf[..], p, t) && ValueAt(t, start, utf8) == ValueAt(t, p, utf8)
      invariant forall i :: 0 <= i < start ==> buf[i] == old(buf[i])
      decreases |t| - p
    {
      var c := buf[p];
      if c == 0 {
        return Failed;
      } else if IsSkipped(c) {
        p := p + 1;
      } else if c == OPEN_BRACE {
        o := ParseMembers(buf, p + 1, utf8, t);
        return;
      } else if c == OPEN_BRACKET {
        o := ParseElements(buf, p + 1, utf8, t);
        return;
      } else if c == CLOSE_BRACKET {
        return Parsed(None, p);
      } else if c == QUOTE {
        o := ParseString(buf, p + 1, utf8, t);
        return;
      } else if StartsNumber(c) {
        o := ParseNumber(buf, p, t);
        return;
      } else if c == 116 || c == 102 || c == 110 {
        o := ParseWords(buf, p, t);
        return;
      } else if c == SLASH {
        var q := SkipComment(buf, p, t);
        if q == None {
          return Failed;
        }
        p := q.value;
      } else {
        return Failed;
      }
    }
  }

  method ParseWords(buf: array<byte>, p: nat, ghost t: seq<byte>) returns (o: Outcome)
    requires IsText(t) && p < |t| && Unread(buf[..], p, t) && (buf[p] == 116 || buf[p] == 102 || buf[p] == 110)
    ensures Matches(o, if t[p] == 116 then WordAt(t, p, TRUE_WORD, Bool(true))
                       else if t[p] == 102 then WordAt(t, p, FALSE_WORD, Bool(false))
                       else WordAt(t, p, NULL_WORD, Null), buf[..])
  {
    hide WordAt;
    if buf[p] == 116 {
      o := ParseWord(buf, p, TRUE_WORD, BoolNode(true), Bool(true), t);
    } else if buf[p] == 102 {
      o := ParseWord(buf, p, FALSE_WORD, BoolNode(false), Bool(false), t);
    } else {
      o := ParseWord(buf, p, NULL_WORD, NullNode, Null, t);
    }
  }

  method ParseElements(buf: array<byte>, start: nat, utf8: bool, ghost t: seq<byte>) returns (o: Outcome)
    requires IsText(t) && start < |t| && Unread(buf[..], start, t)
    modifies buf
    ensures Matches(o, ElementsAt(t, start, [], utf8), buf[..])
    ensures forall i :: 0 <= i < start ==> buf[i] == old(buf[i])
    ensures o.Parsed? ==> Unread(buf[..], o.next, t)
    decreases |t| - start, 2
  {
    hide ValueAt, Stands;
    var p := start;
    var items: seq<Node> := [];
    ghost var values: seq<Json> := [];
    while true
      invariant start <= p < |t| && Unread(buf[..], p, t) && AllStand(items, buf[..p], values)
      invariant ElementsAt(t, start, [], utf8) == ElementsAt(t, p, values, utf8)
      invariant forall i :: 0 <= i < start ==> buf[i] == old(buf[i])
      decreases |t| - p
    {
      ghost var before := buf[..p];
      ghost var r := ValueAt(t, p, utf8);
      var v := ParseValue(buf, p, utf8, t);
      if !v.Parsed? {
        return v;
      }
      assert buf[..p] == before;
      AllStandLonger(items, before, buf[..v.next], values);
      if v.child.Some? {
        items := items + [v.child.value];
        values := values + [r.child.value];
      }
      if buf[v.next] == CLOSE_BRACKET {
        AllStandLonger(items, buf[..v.next], buf[..v.next + 1], values);
        o := Parsed(Some(ArrayNode(items)), v.next + 1);
        ArrayStands(items, buf[..v.next + 1], values);
        return;
      }
      p := v.next;
    }
  }

  lemma ArrayStands(items: seq<Node>, b: seq<byte>, values: seq<Json>)
    requires AllStand(items, b, values)
    ensures Stands(ArrayNode(items), b, Arr(values))
  {}

  method ParseMembers(buf: array<byte>, start: nat, utf8: bool, ghost t: seq<byte>) returns (o: Outcome)
    requires IsText(t) && start < |t| && Unread(buf[..], start, t)
    modifies buf
    ensures Matches(o, MembersAt(t, start, [], utf8), buf[..])
    ensures forall i :: 0 <= i < start ==> buf[i] == old(buf[i])
    ensures o.Parsed? ==> Unread(buf[..], o.next, t)
    decreases |t| - start, 2
  {
    hide ValueAt, KeyAt, MembersAt, Stands, StringAt, FieldsStand;
    var p := start;
    var keys: seq<nat>, nodes: seq<Node> := [], [];
    ghost var fields: seq<Field> := [];
    NoFieldsStand(buf[..p]);
    while true
      invariant start <= p < |t| && Unread(buf[..], p, t) && FieldsStand(keys, nodes, buf[..p], fields)
      invariant MembersAt(t, start, [], utf8) == MembersAt(t, p, fields, utf8)
      invariant forall i :: 0 <= i < start ==> buf[i] == old(buf[i])
      decreases |t| - p
    {
      ghost var before := buf[..p];
      ghost var k := KeyAt(t, p, utf8);
      MembersStep(t, p, fields, utf8);
      var ok, key, q := ParseKey(buf, p, utf8, t);
      if !ok {
        return Failed;
      }
      assert buf[..p] == before;
      FieldsStandLonger(keys, nodes, before, buf[..q], fields);
      if buf[q] == CLOSE_BRACE {
        FieldsStandLonger(keys, nodes, buf[..q], buf[..q + 1], fields);
        o := Parsed(Some(ObjectNode(keys, nodes)), q + 1);
        ObjectStands(keys, nodes, buf[..q + 1], fields);
        return;
      }
      before := buf[..q];
      ghost var r := ValueAt(t, q, utf8);
      var v := ParseValue(buf, q, utf8, t);
      if !v.Parsed? {
        return v;
      }
      assert buf[..q] == before;
      FieldsStandLonger(keys, nodes, before, buf[..v.next], fields);
      if v.child.Some? {
        StringLonger(before, buf[..v.next], key, k.key);
        FieldsStandSnoc(keys, nodes, buf[..v.next], fields, key, v.child.value, Field(k.key, r.child.value));
        keys, nodes := keys + [key], nodes + [v.child.value];
        fields := fields + [Field(k.key, r.child.value)];
      }
      p := v.next;
    }
  }

  lemma MembersStep(t: seq<byte>, p: nat, fields: seq<Field>, utf8: bool)
    requires IsText(t) && p < |t|
    ensures MembersAt(t, p, fields, utf8)
         == var k := KeyAt(t, p, utf8);
            if k.NoKey? then Fail
            else if t[k.next] == CLOSE_BRACE then Done(Some(Obj(fields)), k.next + 1)
            else
              var v := ValueAt(t, k.next, utf8);
              if !v.Done? then v
              else MembersAt(t, v.next, if v.child.Some? then fields + [Field(k.key, v.child.value)] else fields, utf8)
  {
    hide ValueAt, KeyAt;
  }

  lemma NoFieldsStand(b: seq<byte>)
    ensures FieldsStand([], [], b, [])
  {}

  lemma FieldsStandSnoc(keys: seq<nat>, nodes: seq<Node>, b: seq<byte>, fields: seq<Field>, key: nat, x: Node, f: Field)
    requires FieldsStand(keys, nodes, b, fields) && StringAt(b, key, f.key) && Stands(x, b, f.value)
    ensures FieldsStand(keys + [key], nodes + [x], b, fields + [f])
  {
    hide StringAt, Stands;
  }

  lemma ObjectStands(keys: seq<nat>, nodes: seq<Node>, b: seq<byte>, fields: seq<Field>)
    requires FieldsStand(keys, nodes, b, fields)
    ensures Stands(ObjectNode(keys, nodes), b, Obj(fields))
  {}
}
