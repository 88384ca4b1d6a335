/** Every JSON value that is printed can be loaded again, unless only an encoder could tell what it was. */
module JsonRoundTrip {
  import opened Bytes
  import opened Pieces
  import opened JsonNumbers
  import opened JsonText
  import opened JsonStrings
  import opened JsonParser
  import opened JsonSyntax
  import opened Json

  // ---------------------------------------------------------------- printing, RFC 8259

  /** The shortest form that RFC 8259 allows for a byte of a string. */
  function CharOf(b: byte): Char {
    if b == QUOTE || b == BACKSLASH then Short(b)
    else if b == 8 then Short(98)
    else if b == 9 then Short(116)
    else if b == 10 then Short(110)
    else if b == 12 then Short(102)
    else if b == 13 then Short(114)
    else if b < 32 then Char.Unicode(HexBytes(b))
    else Raw(b)
  }

  function CharsOf(s: seq<byte>): seq<Char> {
    if s == [] then [] else [CharOf(s[0])] + CharsOf(s[1..])
  }

  /** A real number with finitely many decimal digits. */
  ghost predicate IsDecimal(x: real) {
    exists m: int, k: int :: IsShifted(x, m, k)
  }

  ghost predicate IsShifted(x: real, m: int, k: int) {
    k >= 0 && x == m as real * Power(10, -k)
  }

  /** Its digits, and an exponent. */
  ghost function DecimalText(x: real): Text
    requires IsDecimal(x)
  {
    var m: int, k: int :| IsShifted(x, m, k);
    ShiftedText(m, k)
  }

  function ShiftedText(m: int, k: nat): Text {
    RealText(m < 0, if m < 0 then -m else m, [], Some(Exponent(101, [MINUS], DigitsOf(k))))
  }

  /** The text of a value without any white space. */
  ghost function TextOf(v: JsonParser.Json): Text
    decreases v
  {
    match v
    case Null => NullText
    case Bool(b) => BoolText(b)
    case Int(n) => NumberText(n < 0, if n < 0 then -n else n)
    case Double(x) => if IsDecimal(x) then DecimalText(x) else NullText
    case Str(s) => StringText(CharsOf(s))
    case Arr(items) => ArrayText(ElementsOf(items), [])
    case Obj(fields) => ObjectText(MembersOf(fields), [])
  }

  ghost function ElementsOf(items: seq<JsonParser.Json>): seq<Element>
    decreases items
  {
    if items == [] then [] else [Element([], TextOf(items[0]), [])] + ElementsOf(items[1..])
  }

  ghost function MembersOf(fields: seq<Field>): seq<Member>
    decreases fields
  {
    if fields == [] then []
    else
      match fields[0]
      case Field(key, value) => [Member([], CharsOf(key), [], Element([], TextOf(value), []))] + MembersOf(fields[1..])
  }

  ghost function Print(v: JsonParser.Json): seq<byte> {
    PrintText(TextOf(v))
  }

  /** Strings without a zero byte, integers of 64 bits, and decimal numbers: every double is one. */
  ghost predicate Printable(v: JsonParser.Json)
    decreases v
  {
    match v
    case Null => true
    case Bool(_) => true
    case Int(n) => -LONG_MAX - 1 <= n <= LONG_MAX
    case Double(x) => IsDecimal(x)
    case Str(s) => 0 !in s
    case Arr(items) => AllPrintable(items)
    case Obj(fields) => FieldsPrintable(fields)
  }

  ghost predicate AllPrintable(items: seq<JsonParser.Json>)
    decreases items
  {
    items == [] || (Printable(items[0]) && AllPrintable(items[1..]))
  }

  ghost predicate FieldsPrintable(fields: seq<Field>)
    decreases fields
  {
    fields == [] ||
    match fields[0]
    case Field(key, value) => 0 !in key && Printable(value) && FieldsPrintable(fields[1..])
  }

  /** A byte that can be printed without a unicode escape. */
  predicate IsTame(b: byte) {
    b >= 32 || b == 8 || b == 9 || b == 10 || b == 12 || b == 13
  }

  predicate TameString(s: seq<byte>) {
    forall i :: 0 <= i < |s| ==> IsTame(s[i])
  }

  /** No string of the value needs a unicode escape. */
  predicate Tame(v: JsonParser.Json)
    decreases v
  {
    match v
    case Null => true
    case Bool(_) => true
    case Int(_) => true
    case Double(_) => true
    case Str(s) => TameString(s)
    case Arr(items) => AllTame(items)
    case Obj(fields) => FieldsTame(fields)
  }

  predicate AllTame(items: seq<JsonParser.Json>)
    decreases items
  {
    items == [] || (Tame(items[0]) && AllTame(items[1..]))
  }

  predicate FieldsTame(fields: seq<Field>)
    decreases fields
  {
    fields == [] ||
    match fields[0]
    case Field(key, value) => TameString(key) && Tame(value) && FieldsTame(fields[1..])
  }

  // ---------------------------------------------------------------- what is printed denotes the value

  lemma CharOfByte(b: byte)
    requires b != 0
    ensures ValidChar(CharOf(b)) && DenoteChar(CharOf(b), true) == [b]
    ensures CharOf(b).Unicode? || CharOf(b).Pair? <==> !IsTame(b)
  {
    hide HexOf, HexBytes;
    if b < 32 {
      HexBytesAreHex(b);
    }
  }

  lemma {:induction false} CharsOfString(s: seq<byte>)
    requires 0 !in s
    ensures ValidChars(CharsOf(s)) && DenoteChars(CharsOf(s), true) == s
    ensures HasUnicodeChar(CharsOf(s)) <==> !TameString(s)
  {
    hide CharOf, ValidChar, DenoteChar, IsTame;
    if s != [] {
      var rest := s[1..];
      assert s[0] in s && forall b :: b in rest ==> b in s;
      CharOfByte(s[0]);
      CharsOfString(rest);
      assert s == [s[0]] + rest;
    }
  }

  lemma {:induction false} DigitsOfNat(n: nat)
    ensures DigitsOf(n) != [] && AreDigits(DigitsOf(n)) && NatOf(DigitsOf(n)) == n
    decreases n
  {
    if n >= 10 {
      DigitsOfNat(n / 10);
    }
  }

  lemma ShiftedTextDenotes(m: int, k: nat)
    ensures ValidText(ShiftedText(m, k)) && !HasUnicode(ShiftedText(m, k))
    ensures Denote(ShiftedText(m, k), true) == Double(m as real * Power(10, -(k as int)))
  {
    hide Power, DigitsOf, NatOf, AreDigits;
    DigitsOfNat(k);
    assert AreDigits([]) by { NoDigits(); }
  }

  lemma NoDigits()
    ensures AreDigits([])
  {}

  lemma DecimalTextDenotes(x: real)
    requires IsDecimal(x)
    ensures ValidText(DecimalText(x)) && !HasUnicode(DecimalText(x)) && Denote(DecimalText(x), true) == Double(x)
  {
    hide Power, ShiftedText, ValidText, Denote, HasUnicode;
    forall m: int, k: int | IsShifted(x, m, k) {
      ShiftedTextDenotes(m, k);
    }
  }

  lemma TenthIsDecimal(x: real)
    requires IsDecimal(x)
    ensures IsDecimal(x / 10.0)
  {
    var m: int, k: int :| IsShifted(x, m, k);
    var power := Power(10, -k);
    Tenth(m as real, power);
    assert IsShifted(x / 10.0, m, k + 1);
  }

  lemma Tenth(x: real, power: real)
    ensures x * power / 10.0 == x * (power / 10.0)
  {}

  lemma Doubled(m: int, power: real)
    ensures (m * 2) as real * power == m as real * (power * 2.0)
  {
    assert (m * 2) as real == m as real * 2.0;
    Reassociate(m as real, 2.0, power);
  }

  lemma Halved(m: int, power: real)
    ensures (m * 5) as real * (power * 2.0) == m as real * power * 10.0
  {
    assert (m * 5) as real == m as real * 5.0;
    Reassociate(m as real, 5.0, power * 2.0);
    Reassociate(m as real, power, 10.0);
  }

  lemma IntegerIsDecimal(m: int)
    ensures IsDecimal(m as real)
  {
    assert IsShifted(m as real, m, 0);
  }

  /** A fraction of a power of two is decimal, and so is every value of a double. */
  lemma {:induction false} DoubleIsDecimal(x: real, m: int, e: int)
    requires x == m as real * Power(2, e)
    ensures IsDecimal(x)
    decreases if e < 0 then -e else e
  {
    hide Power, IsDecimal;
    if e > 0 {
      PowerStep(2, e - 1);
      Doubled(m, Power(2, e - 1));
      DoubleIsDecimal(x, m * 2, e - 1);
    } else if e < 0 {
      PowerStep(2, e);
      Halved(m, Power(2, e));
      DoubleIsDecimal(x * 10.0, m * 5, e + 1);
      TenthIsDecimal(x * 10.0);
    } else {
      PowerZero(2);
      IntegerIsDecimal(m);
    }
  }

  lemma {:induction false} TextOfValue(v: JsonParser.Json)
    requires Printable(v)
    ensures ValidText(TextOf(v)) && Denote(TextOf(v), true) == v && (HasUnicode(TextOf(v)) <==> !Tame(v))
    decreases v
  {
    hide CharsOf, DenoteChars, ValidChars, HasUnicodeChar, TameString;
    match v {
      case Null =>
      case Bool(_) =>
      case Int(_) =>
      case Double(x) =>
        DecimalTextDenotes(x);
      case Str(s) =>
        CharsOfString(s);
      case Arr(items) =>
        ElementsOfItems(items);
      case Obj(fields) =>
        MembersOfFields(fields);
    }
  }

  lemma {:induction false} ElementsOfItems(items: seq<JsonParser.Json>)
    requires AllPrintable(items)
    ensures var es := ElementsOf(items);
            ValidElements(es) && DenoteElements(es, true) == items && (ElementsHaveUnicode(es) <==> !AllTame(items))
    decreases items
  {
    hide TextOf, Denote, Printable, HasUnicode, Tame, ValidText;
    if items != [] {
      var x, rest := items[0], items[1..];
      TextOfValue(x);
      ElementsOfItems(rest);
      ElementsStep(Element([], TextOf(x), []), ElementsOf(rest));
      assert items == [x] + rest;
    }
  }

  lemma ElementsStep(e: Element, rest: seq<Element>)
    ensures var es := [e] + rest;
            && (ValidElements(es) <==> ValidElement(e) && ValidElements(rest))
            && (ElementsHaveUnicode(es) <==> HasUnicode(e.text) || ElementsHaveUnicode(rest))
            && (ValidElements(es) ==>
                  forall utf8 :: DenoteElements(es, utf8) == [Denote(e.text, utf8)] + DenoteElements(rest, utf8))
  {
    var es := [e] + rest;
    assert es[0] == e && es[1..] == rest;
    hide Denote, HasUnicode, ValidElement;
  }

  lemma {:induction false} MembersOfFields(fields: seq<Field>)
    requires FieldsPrintable(fields)
    ensures var ms := MembersOf(fields);
            ValidMembers(ms) && DenoteMembers(ms, true) == fields && (MembersHaveUnicode(ms) <==> !FieldsTame(fields))
    decreases fields
  {
    hide TextOf, Denote, Printable, HasUnicode, Tame, ValidText, CharsOf, DenoteChars, ValidChars, HasUnicodeChar,
        TameString;
    if fields != [] {
      match fields[0]
      case Field(key, value) =>
        var rest := fields[1..];
        CharsOfString(key);
        TextOfValue(value);
        MembersOfFields(rest);
        var m := Member([], CharsOf(key), [], Element([], TextOf(value), []));
        assert ValidElement(m.value) && ValidMember(m);
        MembersStep(m, MembersOf(rest));
        assert fields == [Field(key, value)] + rest;
    }
  }

  lemma MembersStep(m: Member, rest: seq<Member>)
    ensures var ms := [m] + rest;
            && (ValidMembers(ms) <==> ValidMember(m) && ValidMembers(rest))
            && (MembersHaveUnicode(ms) <==>
                  HasUnicodeChar(m.key) || HasUnicode(m.value.text) || MembersHaveUnicode(rest))
            && (ValidMembers(ms) ==>
                  forall utf8 :: DenoteMembers(ms, utf8) == [FieldOf(m, utf8)] + DenoteMembers(rest, utf8))
  {
    var ms := [m] + rest;
    assert ms[0] == m && ms[1..] == rest;
    hide Denote, HasUnicode, ValidMember, HasUnicodeChar, DenoteChars;
  }

  lemma PrintedDocument(v: JsonParser.Json, utf8: bool)
    requires Printable(v)
    ensures ValidText(TextOf(v))
    ensures ValueAt(Print(v) + [0], 0, utf8) == Done(Some(Denote(TextOf(v), utf8)), |Print(v)|)
  {
    hide ValueAt, Denote, TextOf, PrintText, ValidText;
    TextOfValue(v);
    var e := Element([], TextOf(v), []);
    assert ValidElement(e);
    DocumentIsRead(e, utf8);
    assert Document(e) == Print(v) + [0] by {
      assert PrintText(e.text) + [] == PrintText(e.text) && [] + PrintText(e.text) == PrintText(e.text);
    }
  }

  /** Parsing what is printed gives the value, if unicode escapes are decoded; if they are not, exactly for
      the values that are printed without any. */
  lemma ParsePrint(v: JsonParser.Json)
    requires Printable(v)
    ensures ValueAt(Print(v) + [0], 0, true) == Done(Some(v), |Print(v)|)
    ensures ValueAt(Print(v) + [0], 0, false) == Done(Some(v), |Print(v)|) <==> Tame(v)
  {
    hide ValueAt, Print, Denote, TextOf, Tame, HasUnicode, ValidText;
    PrintedDocument(v, true);
    PrintedDocument(v, false);
    TextOfValue(v);
    TextKeptIff(TextOf(v));
  }

  // ---------------------------------------------------------------- UTF-8

  /** A reader of UTF-8, RFC 3629: only the shortest form of a scalar value is accepted. */
  function DecodeUtf8(s: seq<byte>): Option<nat> {
    if |s| == 1 && s[0] < 0x80 then Some(s[0])
    else if |s| == 2 && 0xc2 <= s[0] < 0xe0 && IsTail(s[1]) then Some((s[0] as int - 0xc0) * 64 + (s[1] as int - 128))
    else if |s| == 3 && 0xe0 <= s[0] < 0xf0 && IsTail(s[1]) && IsTail(s[2]) then
      var cp := (s[0] as int - 0xe0) * 4096 + (s[1] as int - 128) * 64 + (s[2] as int - 128);
      if 0x800 <= cp && IsScalar(cp) then Some(cp) else None
    else if |s| == 4 && 0xf0 <= s[0] < 0xf5 && IsTail(s[1]) && IsTail(s[2]) && IsTail(s[3]) then
      var cp := (s[0] as int - 0xf0) * 262144 + (s[1] as int - 128) * 4096 + (s[2] as int - 128) * 64
          + (s[3] as int - 128);
      if 0x10000 <= cp < 0x110000 then Some(cp) else None
    else None
  }

  predicate IsTail(c: byte) {
    128 <= c < 192
  }

  /** A code point has a UTF-8 form exactly when it is a scalar value, and that form reads back. */
  lemma Utf8RoundTrip(cp: nat)
    ensures Utf8(cp).Some? <==> IsScalar(cp)
    ensures Utf8(cp).Some? ==> DecodeUtf8(Utf8(cp).value) == Some(cp)
  {
    ModSplit(cp, 64, 64, 4096);
    ModSplit(cp, 4096, 64, 262144);
  }

  // ---------------------------------------------------------------- values of the API

  function FromAny(a: Any): JsonParser.Json
    decreases a
  {
    match a
    case AnyNull => Null
    case AnyBool(b) => JsonParser.Bool(b)
    case AnyInt(n) => Int(n)
    case AnyNumber(x) => Double(x)
    case AnyStr(s) => Str(s)
    case AnyArray(items) => Arr(FromItems(items))
    case AnyObject(properties) => Obj(FromProperties(properties))
  }

  function FromItems(items: seq<Any>): seq<JsonParser.Json>
    decreases items
  {
    if items == [] then [] else FromItems(items[..|items| - 1]) + [FromAny(items[|items| - 1])]
  }

  function FromProperties(ps: seq<Property>): seq<Field>
    decreases ps
  {
    if ps == [] then []
    else match ps[|ps| - 1] case Property(name, value) => FromProperties(ps[..|ps| - 1]) + [Field(name, FromAny(value))]
  }

  /** Objects have no two properties of one name, all the way down. */
  predicate Proper(a: Any)
    decreases a
  {
    match a
    case AnyArray(items) => AllProper(items)
    case AnyObject(properties) => PropertiesProper(properties)
    case AnyNull => true
    case AnyBool(_) => true
    case AnyInt(_) => true
    case AnyNumber(_) => true
    case AnyStr(_) => true
  }

  predicate AllProper(items: seq<Any>)
    decreases items
  {
    items == [] || (AllProper(items[..|items| - 1]) && Proper(items[|items| - 1]))
  }

  predicate PropertiesProper(ps: seq<Property>)
    decreases ps
  {
    ps == [] || match ps[|ps| - 1] case Property(name, value) =>
      PropertiesProper(ps[..|ps| - 1]) && Proper(value) && Lookup(ps[..|ps| - 1], name) == None
  }

  lemma {:induction false} EraseNothing(ps: seq<Property>, name: seq<byte>)
    requires Lookup(ps, name) == None
    ensures Erase(ps, name) == ps
    decreases |ps|
  {
    if ps != [] {
      EraseNothing(ps[1..], name);
      assert ps == [ps[0]] + ps[1..];
    }
  }

  lemma {:induction false} BackToAny(a: Any)
    requires Proper(a)
    ensures ToAny(FromAny(a)) == a
    decreases a
  {
    match a
    case AnyArray(items) => ItemsBack(items);
    case AnyObject(properties) => PropertiesBack(properties);
    case AnyNull =>
    case AnyBool(_) =>
    case AnyInt(_) =>
    case AnyNumber(_) =>
    case AnyStr(_) =>
  }

  lemma {:induction false} ItemsBack(items: seq<Any>)
    requires AllProper(items)
    ensures ItemsToAny(FromItems(items)) == items
    decreases items
  {
    hide ToAny, FromAny, Proper;
    if items != [] {
      var front, x := items[..|items| - 1], items[|items| - 1];
      ItemsBack(front);
      BackToAny(x);
      ItemsToAnySnoc(FromItems(front), FromAny(x));
      assert front + [x] == items;
    }
  }

  lemma ItemsToAnySnoc(items: seq<JsonParser.Json>, x: JsonParser.Json)
    ensures ItemsToAny(items + [x]) == ItemsToAny(items) + [ToAny(x)]
  {
    hide ToAny;
    assert (items + [x])[..|items|] == items;
  }

  lemma FieldsToAnySnoc(fields: seq<Field>, key: seq<byte>, value: JsonParser.Json)
    ensures FieldsToAny(fields + [Field(key, value)]) == SetProperty(FieldsToAny(fields), key, ToAny(value))
  {
    hide ToAny, SetProperty;
    assert (fields + [Field(key, value)])[..|fields|] == fields;
  }

  lemma SetAppends(ps: seq<Property>, name: seq<byte>, value: Any)
    requires Lookup(ps, name) == None
    ensures SetProperty(ps, name, value) == ps + [Property(name, value)]
  {
    EraseNothing(ps, name);
  }

  lemma LastProperty(ps: seq<Property>)
    requires PropertiesProper(ps) && ps != []
    ensures var front, last := ps[..|ps| - 1], ps[|ps| - 1];
            && PropertiesProper(front) && Proper(last.value) && Lookup(front, last.name) == None
            && FromProperties(ps) == FromProperties(front) + [Field(last.name, FromAny(last.value))]
            && front + [Property(last.name, last.value)] == ps
  {
    hide FromAny, Proper, Lookup;
  }

  lemma {:induction false} PropertiesBack(ps: seq<Property>)
    requires PropertiesProper(ps)
    ensures FieldsToAny(FromProperties(ps)) == ps
    decreases ps
  {
    hide ToAny, FromAny, Proper, PropertiesProper, FieldsToAny, FromProperties, Lookup, SetProperty;
    if ps == [] {
      NoProperties();
    } else {
      var front, last := ps[..|ps| - 1], ps[|ps| - 1];
      LastProperty(ps);
      PropertiesBack(front);
      BackToAny(last.value);
      SetAppends(front, last.name, last.value);
      FieldsToAnySnoc(FromProperties(front), last.name, FromAny(last.value));
    }
  }

  lemma NoProperties()
    ensures FieldsToAny(FromProperties([])) == []
  {}

  // ---------------------------------------------------------------- loading

  /** What is loaded: of every text of RFC 8259 the value it denotes without decoding unicode escapes, which
      is the value that it does denote exactly when no string of it holds one. */
  lemma LoadsLaidOut(e: Element)
    requires ValidElement(e)
    ensures LoadOf(Document(e)) == Loaded(ToAny(Denote(e.text, false)))
    ensures Denote(e.text, false) == Denote(e.text, true) <==> !HasUnicode(e.text)
  {
    hide ValueAt, Document, Denote, PrintText, ValidText, HasUnicode, ToAny;
    DocumentIsRead(e, false);
    TextKeptIff(e.text);
  }

  /** No string of the value needs a unicode escape. */
  predicate TameAny(a: Any)
    decreases a
  {
    match a
    case AnyNull => true
    case AnyBool(_) => true
    case AnyInt(_) => true
    case AnyNumber(_) => true
    case AnyStr(s) => TameString(s)
    case AnyArray(items) => forall i :: 0 <= i < |items| ==> TameAny(items[i])
    case AnyObject(properties) =>
      forall i :: 0 <= i < |properties| ==> TameString(properties[i].name) && TameAny(properties[i].value)
  }

  predicate TameProperties(ps: seq<Property>) {
    forall i :: 0 <= i < |ps| ==> TameString(ps[i].name) && TameAny(ps[i].value)
  }

  predicate TameFields(fields: seq<Field>) {
    forall i :: 0 <= i < |fields| ==> TameString(fields[i].key) && Tame(fields[i].value)
  }

  lemma {:induction false} AllTameIff(items: seq<JsonParser.Json>)
    ensures AllTame(items) <==> forall i :: 0 <= i < |items| ==> Tame(items[i])
    decreases |items|
  {
    hide Tame;
    if items != [] {
      AllTameIff(items[1..]);
      assert forall i :: 1 <= i < |items| ==> items[i] == items[1..][i - 1];
      assert forall i :: 0 <= i < |items[1..]| ==> items[1..][i] == items[i + 1];
    }
  }

  lemma {:induction false} FieldsTameIff(fields: seq<Field>)
    ensures FieldsTame(fields) <==> TameFields(fields)
    decreases |fields|
  {
    hide Tame, TameString;
    if fields != [] {
      assert fields[0] == Field(fields[0].key, fields[0].value);
      FieldsTameIff(fields[1..]);
      assert forall i :: 1 <= i < |fields| ==> fields[i] == fields[1..][i - 1];
      assert forall i :: 0 <= i < |fields[1..]| ==> fields[1..][i] == fields[i + 1];
    }
  }

  // ---- a value without such strings has none in its tree

  lemma {:induction false} TreeIsTame(a: Any)
    requires TameAny(a)
    ensures Tame(FromAny(a))
    decreases a
  {
    hide TameString;
    match a {
      case AnyArray(items) =>
        ItemsTreeIsTame(items);
        AllTameIff(FromItems(items));
      case AnyObject(ps) =>
        assert TameProperties(ps);
        PropertiesTreeIsTame(ps);
        FieldsTameIff(FromProperties(ps));
        assert FromAny(a) == Obj(FromProperties(ps));
      case AnyNull =>
      case AnyBool(_) =>
      case AnyInt(_) =>
      case AnyNumber(_) =>
      case AnyStr(_) =>
    }
  }

  lemma {:induction false} ItemsTreeIsTame(items: seq<Any>)
    requires forall i :: 0 <= i < |items| ==> TameAny(items[i])
    ensures forall i :: 0 <= i < |FromItems(items)| ==> Tame(FromItems(items)[i])
    decreases items
  {
    hide Tame, TameAny, FromAny;
    if items != [] {
      var front, x := items[..|items| - 1], items[|items| - 1];
      assert forall i :: 0 <= i < |front| ==> front[i] == items[i];
      ItemsTreeIsTame(front);
      TreeIsTame(x);
    }
  }

  lemma {:induction false} PropertiesTreeIsTame(ps: seq<Property>)
    requires TameProperties(ps)
    ensures TameFields(FromProperties(ps))
    decreases ps
  {
    hide Tame, TameAny, FromAny, TameString;
    if ps != [] {
      var front, last := ps[..|ps| - 1], ps[|ps| - 1];
      assert forall i :: 0 <= i < |front| ==> front[i] == ps[i];
      PropertiesTreeIsTame(front);
      TreeIsTame(last.value);
      assert last == Property(last.name, last.value);
      assert FromProperties(ps) == FromProperties(front) + [Field(last.name, FromAny(last.value))];
    }
  }

  // ---- and a tree without such strings has none in its value

  lemma {:induction false} ValueIsTame(v: JsonParser.Json)
    requires Tame(v)
    ensures TameAny(ToAny(v))
    decreases v
  {
    hide TameString;
    match v {
      case Arr(items) =>
        AllTameIff(items);
        ItemsAreTame(items);
      case Obj(fields) =>
        FieldsTameIff(fields);
        PropertiesAreTame(fields);
      case Null =>
      case Bool(_) =>
      case Int(_) =>
      case Double(_) =>
      case Str(_) =>
    }
  }

  lemma {:induction false} ItemsAreTame(items: seq<JsonParser.Json>)
    requires forall i :: 0 <= i < |items| ==> Tame(items[i])
    ensures forall i :: 0 <= i < |ItemsToAny(items)| ==> TameAny(ItemsToAny(items)[i])
    decreases items
  {
    hide Tame, TameAny, ToAny;
    if items != [] {
      var front, x := items[..|items| - 1], items[|items| - 1];
      assert forall i :: 0 <= i < |front| ==> front[i] == items[i];
      ItemsAreTame(front);
      ValueIsTame(x);
    }
  }

  lemma {:induction false} PropertiesAreTame(fields: seq<Field>)
    requires TameFields(fields)
    ensures TameProperties(FieldsToAny(fields))
    decreases fields
  {
    hide Tame, TameAny, ToAny, TameString, SetProperty;
    if fields != [] {
      var front, last := fields[..|fields| - 1], fields[|fields| - 1];
      assert forall i :: 0 <= i < |front| ==> front[i] == fields[i];
      assert last == Field(last.key, last.value);
      PropertiesAreTame(front);
      ValueIsTame(last.value);
      SetKeepsTame(FieldsToAny(front), last.key, ToAny(last.value));
    }
  }

  lemma SetKeepsTame(ps: seq<Property>, name: seq<byte>, value: Any)
    requires TameProperties(ps) && TameString(name) && TameAny(value)
    ensures TameProperties(SetProperty(ps, name, value))
  {
    hide TameAny, TameString;
    EraseKeepsTame(ps, name);
  }

  lemma {:induction false} EraseKeepsTame(ps: seq<Property>, name: seq<byte>)
    requires TameProperties(ps)
    ensures TameProperties(Erase(ps, name))
    decreases |ps|
  {
    hide TameAny, TameString;
    if ps != [] {
      assert forall i :: 0 <= i < |ps[1..]| ==> ps[1..][i] == ps[i + 1];
      EraseKeepsTame(ps[1..], name);
    }
  }

  // ---- what is read without an encoder has no such string

  lemma CharIsTame(c: Char)
    requires ValidChar(c)
    ensures TameString(DenoteChar(c, false))
  {
    hide HexOf;
    if IsEscape(c) {
      match c {
        case Unicode(h) =>
          HexIsTame(h);
        case Pair(h, l) =>
          HexIsTame(h);
          HexIsTame(l);
      }
    }
  }

  lemma HexIsTame(h: seq<byte>)
    requires IsHex(h)
    ensures TameString([BACKSLASH, 117] + h)
  {}

  lemma {:induction false} CharsAreTame(cs: seq<Char>)
    requires ValidChars(cs)
    ensures TameString(DenoteChars(cs, false))
  {
    hide ValidChar, DenoteChar, IsTame;
    if cs != [] {
      CharIsTame(cs[0]);
      CharsAreTame(cs[1..]);
    }
  }

  lemma {:induction false} DenotedIsTame(x: Text)
    requires ValidText(x)
    ensures Tame(Denote(x, false))
    decreases x, 0
  {
    hide TameString, DenoteChars, ValidChars;
    match x {
      case NullText =>
      case BoolText(_) =>
      case NumberText(_, _) =>
      case RealText(_, _, _, _) =>
      case StringText(cs) =>
        CharsAreTame(cs);
      case ArrayText(es, _) =>
        ElementsAreTame(es);
      case ObjectText(ms, _) =>
        MembersAreTame(ms);
    }
  }

  lemma {:induction false} ElementsAreTame(es: seq<Element>)
    requires ValidElements(es)
    ensures AllTame(DenoteElements(es, false))
    decreases es, 2
  {
    hide Denote, Tame, ValidText;
    if es != [] {
      assert ValidElement(es[0]);
      DenotedIsTame(es[0].text);
      ElementsAreTame(es[1..]);
      var all := DenoteElements(es, false);
      assert all[1..] == DenoteElements(es[1..], false);
    }
  }

  lemma {:induction false} MembersAreTame(ms: seq<Member>)
    requires ValidMembers(ms)
    ensures FieldsTame(DenoteMembers(ms, false))
    decreases ms, 3
  {
    hide Denote, Tame, ValidText, DenoteChars, TameString, ValidChars;
    if ms != [] {
      assert ValidMember(ms[0]) && ValidElement(ms[0].value);
      CharsAreTame(ms[0].key);
      DenotedIsTame(ms[0].value.text);
      MembersAreTame(ms[1..]);
      var all := DenoteMembers(ms, false);
      assert all[0] == FieldOf(ms[0], false) && all[1..] == DenoteMembers(ms[1..], false);
    }
  }

  /** Loading the text of a value gives the value exactly when that is printed without unicode escapes. */
  lemma LoadPrint(a: Any)
    requires Proper(a) && Printable(FromAny(a))
    ensures LoadOf(Print(FromAny(a)) + [0]) == Loaded(a) <==> TameAny(a)
  {
    hide ValueAt, Print, Denote, TextOf, ToAny, FromAny, Proper, Printable, Tame, TameAny, HasUnicode, ValidText;
    var v := FromAny(a);
    PrintedDocument(v, false);
    TextOfValue(v);
    TextKeptIff(TextOf(v));
    BackToAny(a);
    if TameAny(a) {
      TreeIsTame(a);
    } else {
      DenotedIsTame(TextOf(v));
      ValueIsTame(Denote(TextOf(v), false));
    }
  }
}
