/** The JSON values of the API, and loading them from a text. */
module Json {
  import opened Bytes
  import opened Pieces
  import opened JsonText
  import opened JsonParser

  datatype Property = Property(name: seq<byte>, value: Any)

  datatype Any =
    | AnyNull
    | AnyBool(b: bool)
    | AnyInt(n: int)
    | AnyNumber(x: real)
    | AnyStr(s: seq<byte>)
    | AnyArray(items: seq<Any>)
    | AnyObject(properties: seq<Property>)

  // ---------------------------------------------------------------- the properties of an object

  function Erase(ps: seq<Property>, name: seq<byte>): (r: seq<Property>)
    ensures |r| <= |ps|
  {
    if ps == [] then [] else if ps[0].name == name then ps[1..] else [ps[0]] + Erase(ps[1..], name)
  }

  /** A property that is set moves to the end. */
  function SetProperty(ps: seq<Property>, name: seq<byte>, value: Any): seq<Property> {
    Erase(ps, name) + [Property(name, value)]
  }

  function Lookup(ps: seq<Property>, name: seq<byte>): Option<Any> {
    if ps == [] then None else if ps[0].name == name then Some(ps[0].value) else Lookup(ps[1..], name)
  }

  predicate DistinctProperties(ps: seq<Property>) {
    ps == [] || (Lookup(ps[1..], ps[0].name) == None && DistinctProperties(ps[1..]))
  }

  class JsonObject {
    var properties: seq<Property>

    constructor ()
      ensures properties == []
    {
      properties := [];
    }

    method Set(key: seq<byte>, value: Any)
      modifies this
      ensures properties == SetProperty(old(properties), key, value)
    {
      var i := 0;
      ghost var was := properties;
      while i < |properties|
        invariant 0 <= i <= |properties| && properties == was
        invariant Erase(was, key) == was[..i] + Erase(was[i..], key)
        decreases |was| - i
      {
        EraseStep(was, i, key);
        if key == properties[i].name {
          properties := properties[..i] + properties[i + 1..];
          break;
        }
        i := i + 1;
      }
      assert properties == Erase(was, key);
      properties := properties + [Property(key, value)];
    }

    method GetProperty(name: seq<byte>) returns (r: Option<Any>)
      ensures r == Lookup(properties, name)
    {
      var i := 0;
      while i < |properties|
        invariant 0 <= i <= |properties| && Lookup(properties, name) == Lookup(properties[i..], name)
      {
        if properties[i].name == name {
          return Some(properties[i].value);
        }
        assert properties[i..][1..] == properties[i + 1..];
        i := i + 1;
      }
      return None;
    }

    method EnsurePropertyString(name: seq<byte>) returns (r: Option<Any>)
      ensures var found := Lookup(properties, name);
              r == if found.Some? && found.value.AnyStr? then found else None
    {
      r := GetProperty(name);
      if r == None {
        return None;
      }
      if !r.value.AnyStr? {
        return None;
      }
    }
  }

  lemma EraseStep(ps: seq<Property>, i: nat, name: seq<byte>)
    requires i < |ps|
    ensures ps[..i] + Erase(ps[i..], name)
            == if ps[i].name == name then ps[..i] + ps[i + 1..] else ps[..i + 1] + Erase(ps[i + 1..], name)
  {
    assert ps[i..][1..] == ps[i + 1..];
  }

  lemma {:induction false} EraseKeeps(ps: seq<Property>, name: seq<byte>, other: seq<byte>)
    requires DistinctProperties(ps)
    ensures Lookup(Erase(ps, name), other) == if other == name then None else Lookup(ps, other)
    decreases |ps|
  {
    if ps != [] && ps[0].name != name {
      EraseKeeps(ps[1..], name, other);
      assert Erase(ps, name)[1..] == Erase(ps[1..], name);
    }
  }

  lemma {:induction false} EraseDistinct(ps: seq<Property>, name: seq<byte>)
    requires DistinctProperties(ps)
    ensures DistinctProperties(Erase(ps, name))
    decreases |ps|
  {
    if ps != [] && ps[0].name != name {
      EraseDistinct(ps[1..], name);
      EraseKeeps(ps[1..], name, ps[0].name);
      assert Erase(ps, name)[1..] == Erase(ps[1..], name);
    }
  }

  lemma {:induction false} DistinctSnoc(ps: seq<Property>, p: Property)
    requires DistinctProperties(ps) && Lookup(ps, p.name) == None
    ensures DistinctProperties(ps + [p])
    decreases |ps|
  {
    if ps != [] {
      DistinctSnoc(ps[1..], p);
      assert (ps + [p])[1..] == ps[1..] + [p];
      LookupConcat(ps[1..], [p], ps[0].name);
      LookupOne(p, ps[0].name);
    }
  }

  lemma LookupOne(p: Property, name: seq<byte>)
    ensures Lookup([p], name) == if p.name == name then Some(p.value) else None
  {
    assert [p][1..] == [];
  }

  lemma {:induction false} LookupConcat(a: seq<Property>, b: seq<Property>, name: seq<byte>)
    ensures Lookup(a + b, name) == if Lookup(a, name).Some? then Lookup(a, name) else Lookup(b, name)
    decreases |a|
  {
    if a == [] {
      assert a + b == b;
    } else {
      assert (a + b)[1..] == a[1..] + b;
      LookupConcat(a[1..], b, name);
    }
  }

  /** Setting a property changes it and no other, and never makes a second one of the name. */
  lemma SetThenLookup(ps: seq<Property>, name: seq<byte>, value: Any, other: seq<byte>)
    requires DistinctProperties(ps)
    ensures Lookup(SetProperty(ps, name, value), other) == if other == name then Some(value) else Lookup(ps, other)
    ensures DistinctProperties(SetProperty(ps, name, value))
  {
    EraseKeeps(ps, name, other);
    LookupConcat(Erase(ps, name), [Property(name, value)], other);
    LookupOne(Property(name, value), other);
    EraseDistinct(ps, name);
    EraseKeeps(ps, name, name);
    DistinctSnoc(Erase(ps, name), Property(name, value));
  }

  // ---------------------------------------------------------------- from the parsed value

  function ToAny(v: Json): Any
    decreases v
  {
    match v
    case Null => AnyNull
    case Bool(b) => AnyBool(b)
    case Int(n) => AnyInt(n)
    case Double(x) => AnyNumber(x)
    case Str(s) => AnyStr(s)
    case Arr(items) => AnyArray(ItemsToAny(items))
    case Obj(fields) => AnyObject(FieldsToAny(fields))
  }

  function ItemsToAny(items: seq<Json>): seq<Any>
    decreases items
  {
    if items == [] then [] else ItemsToAny(items[..|items| - 1]) + [ToAny(items[|items| - 1])]
  }

  function FieldsToAny(fields: seq<Field>): seq<Property>
    decreases fields
  {
    if fields == [] then []
    else
      match fields[|fields| - 1]
      case Field(key, value) => SetProperty(FieldsToAny(fields[..|fields| - 1]), key, ToAny(value))
  }

  /** The last field of a name. */
  function LastField(fields: seq<Field>, name: seq<byte>): Option<Json> {
    if fields == [] then None
    else if fields[|fields| - 1].key == name then Some(fields[|fields| - 1].value)
    else LastField(fields[..|fields| - 1], name)
  }

  /** Of several members with the same key the last one wins. */
  lemma {:induction false} LastMemberWins(fields: seq<Field>, name: seq<byte>)
    ensures DistinctProperties(FieldsToAny(fields))
    ensures Lookup(FieldsToAny(fields), name)
            == if LastField(fields, name) == None then None else Some(ToAny(LastField(fields, name).value))
    decreases |fields|
  {
    hide SetProperty;
    if fields != [] {
      var front, f := fields[..|fields| - 1], fields[|fields| - 1];
      LastMemberWins(front, name);
      SetThenLookup(FieldsToAny(front), f.key, ToAny(f.value), name);
    }
  }

  // ---------------------------------------------------------------- reading the tree

  method CString(buf: array<byte>, at: nat, ghost s: seq<byte>) returns (r: seq<byte>)
    requires StringAt(buf[..], at, s)
    ensures r == s
  {
    var i := at;
    NoNulInside(buf[..], at, s);
    while buf[i] != 0
      invariant at <= i <= at + |s|
      decreases at + |s| - i
    {
      i := i + 1;
    }
    r := buf[at..i];
    assert r == buf[..][at..at + |s|];
  }

  lemma NoNulInside(b: seq<byte>, at: nat, s: seq<byte>)
    requires StringAt(b, at, s)
    ensures forall i :: at <= i < at + |s| ==> b[i] != 0
  {
    forall i | at <= i < at + |s|
      ensures b[i] != 0
    {
      AtIndex(b, at, s, i - at);
      assert s[i - at] in s;
    }
  }

  method BuildTree(x: Node, buf: array<byte>, ghost v: Json) returns (any: Any)
    requires Stands(x, buf[..], v)
    ensures any == ToAny(v)
    decreases x
  {
    match x
    case NullNode => any := AnyNull;
    case BoolNode(b) => any := AnyBool(b);
    case IntNode(n) => any := AnyInt(n);
    case DoubleNode(y) => any := AnyNumber(y);
    case StringNode(at) =>
      var s := CString(buf, at, v.s);
      any := AnyStr(s);
    case ArrayNode(items) =>
      var all := BuildItems(items, buf, v.items);
      any := AnyArray(all);
    case ObjectNode(keys, values) =>
      var ps := BuildProperties(keys, values, buf, v.fields);
      any := AnyObject(ps);
  }

  method BuildItems(xs: seq<Node>, buf: array<byte>, ghost vs: seq<Json>) returns (all: seq<Any>)
    requires AllStand(xs, buf[..], vs)
    ensures all == ItemsToAny(vs)
    decreases xs
  {
    all := [];
    var i := 0;
    while i < |xs|
      invariant 0 <= i <= |xs| && all == ItemsToAny(vs[..i])
    {
      assert vs[..i + 1][..i] == vs[..i];
      var value := BuildTree(xs[i], buf, vs[i]);
      all := all + [value];
      i := i + 1;
    }
    assert vs[..i] == vs;
  }

  method BuildProperties(keys: seq<nat>, xs: seq<Node>, buf: array<byte>, ghost fields: seq<Field>)
      returns (ps: seq<Property>)
    requires FieldsStand(keys, xs, buf[..], fields)
    ensures ps == FieldsToAny(fields)
    decreases xs
  {
    var obj := new JsonObject();
    var i := 0;
    while i < |xs|
      invariant 0 <= i <= |xs| && obj.properties == FieldsToAny(fields[..i])
      invariant fresh(obj)
    {
      assert fields[..i + 1][..i] == fields[..i];
      var value := BuildTree(xs[i], buf, fields[i].value);
      var key := CString(buf, keys[i], fields[i].key);
      obj.Set(key, value);
      i := i + 1;
    }
    assert fields[..i] == fields;
    ps := obj.properties;
  }

  // ---------------------------------------------------------------- loading

  datatype LoadResult = Loaded(any: Any) | NotLoaded

  /** What a text holds: nothing when it is empty, cannot be parsed, or has no value. */
  function LoadOf(t: seq<byte>): LoadResult
    requires IsText(t)
  {
    match ValueAt(t, 0, false)
    case Fail => NotLoaded
    case Done(child, _) => if child == None then NotLoaded else Loaded(ToAny(child.value))
  }

  /** Loads a value from a text, which is overwritten. */
  method Loads(str: array<byte>) returns (r: LoadResult)
    requires IsText(str[..])
    modifies str
    ensures r == LoadOf(old(str[..]))
  {
    hide ValueAt, ToAny, Stands;
    ghost var t := str[..];
    if str[0] == 0 {
      EmptyHoldsNothing(t);
      return NotLoaded;
    }
    ghost var v := ValueAt(t, 0, false);
    var o := ParseValue(str, 0, false, t);
    if o == Failed {
      return NotLoaded;
    }
    if o.child == None {
      return NotLoaded;
    }
    StandsLonger(o.child.value, str[..o.next], str[..], v.child.value);
    var any := BuildTree(o.child.value, str, v.child.value);
    return Loaded(any);
  }

  lemma EmptyHoldsNothing(t: seq<byte>)
    requires IsText(t) && t[0] == 0
    ensures ValueAt(t, 0, false) == Fail
  {}
}
