/**
 The configuration parser: nested directives, the structural comparison that drives a reload,
 and the look-ups on a directive.
 */
module ConfParser {
  import opened ConfLexer
  import opened Pieces

  /** A directive with its arguments and its block; `line` is where its words ended. */
  datatype Directive = Directive(line: nat, name: string, args: seq<string>, directives: seq<Directive>)
  {
    function Arg0(): string {
      if |args| > 0 then args[0] else ""
    }

    /** The first child with this name. */
    function Get(childName: string): Option<Directive> {
      FindFirst(directives, childName, None)
    }

    /** The first child with this name and first argument. */
    function GetWithArg(childName: string, arg: string): Option<Directive> {
      FindFirst(directives, childName, Some(arg))
    }
  }

  predicate Matches(d: Directive, name: string, arg: Option<string>) {
    d.name == name && (arg.Some? ==> d.Arg0() == arg.value)
  }

  function FindFirst(ds: seq<Directive>, name: string, arg: Option<string>): (r: Option<Directive>)
    ensures r.Some? ==> r.value in ds && Matches(r.value, name, arg)
    ensures r.None? ==> forall d :: d in ds ==> !Matches(d, name, arg)
  {
    if ds == [] then None
    else if Matches(ds[0], name, arg) then Some(ds[0])
    else FindFirst(ds[1..], name, arg)
  }

  /** What parsing a block reports: the directives pushed so far, also when it failed. */
  datatype Parsed = Parsed(code: Code, directives: seq<Directive>, next: nat, line: nat)

  /** What one directive's words lead to. */
  datatype Item = Item(code: Code, found: Option<Directive>, next: nat, line: nat)

  /** The directive at `pos`, with its block if it has one. An item without a directive ends the
      enclosing block, as does one whose code is not Success. */
  function ParseItem(text: string, pos: nat, line: nat, block: bool): (r: Item)
    requires pos <= |text|
    ensures pos <= r.next <= |text|
    ensures r.code == Success && r.found.Some? ==> pos < r.next
    decreases |text| - pos, 0
  {
    var t := Lex(text, pos, Blank, "", [], line);
    if t.code == Invalid then Item(Invalid, None, t.next, t.line)
    else if t.code == BlockEnd then Item(if block then Success else BlockEnd, None, t.next, t.line)
    else if t.code == Eof then Item(if block then Eof else Success, None, t.next, t.line)
    else if t.args == [] then Item(t.code, None, t.next, t.line)
    else if t.code == BlockStart then
      var inner := Parse(text, t.next, t.line, true);
      Item(inner.code, Some(Directive(t.line, t.args[0], t.args[1..], inner.directives)), inner.next, inner.line)
    else
      Item(Success, Some(Directive(t.line, t.args[0], t.args[1..], [])), t.next, t.line)
  }

  /** The directives from `pos` to the end of the file or, with `block`, of the block. */
  function Parse(text: string, pos: nat, line: nat, block: bool): (r: Parsed)
    requires pos <= |text|
    ensures pos <= r.next <= |text|
    decreases |text| - pos, 1
  {
    var item := ParseItem(text, pos, line, block);
    if item.found.None? then Parsed(item.code, [], item.next, item.line)
    else if item.code != Success then Parsed(item.code, [item.found.value], item.next, item.line)
    else
      var more := Parse(text, item.next, item.line, block);
      Parsed(more.code, [item.found.value] + more.directives, more.next, more.line)
  }

  lemma UnfoldParse(text: string, pos: nat, line: nat, block: bool)
    requires pos <= |text|
    ensures var item := ParseItem(text, pos, line, block);
            Parse(text, pos, line, block)
            == if item.found.None? then Parsed(item.code, [], item.next, item.line)
               else if item.code != Success then Parsed(item.code, [item.found.value], item.next, item.line)
               else
                 var more := Parse(text, item.next, item.line, block);
                 Parsed(more.code, [item.found.value] + more.directives, more.next, more.line)
  {
    hide ParseItem;
  }

  /** The body of the parsing loop: one directive and, recursively, its block. */
  method ReadDirective(buffer: FileBuffer, block: bool) returns (ret: Code, found: Option<Directive>)
    requires buffer.Valid()
    modifies buffer
    ensures buffer.Valid() && buffer.pos >= old(buffer.pos)
    ensures Item(ret, found, buffer.pos, buffer.line)
            == ParseItem(buffer.text, old(buffer.pos), old(buffer.line), block)
    decreases |buffer.text| - buffer.pos, 0
  {
    var args: seq<string>;
    ret, args := ReadToken(buffer);
    found := None;
    if ret == Invalid {
      return;
    }
    if ret == BlockEnd {
      ret := if block then Success else BlockEnd;
      return;
    }
    if ret == Eof {
      ret := if block then Eof else Success;
      return;
    }
    if args == [] {
      return;
    }
    var line, directives := buffer.line, [];
    if ret == BlockStart {
      ret, directives := ParseConf(buffer, true);
    } else {
      ret := Success;
    }
    found := Some(Directive(line, args[0], args[1..], directives));
  }

  /** Parses the buffer up to the end of the file or of the block. */
  method ParseConf(buffer: FileBuffer, block: bool) returns (ret: Code, directives: seq<Directive>)
    requires buffer.Valid()
    modifies buffer
    ensures buffer.Valid() && buffer.pos >= old(buffer.pos)
    ensures Parsed(ret, directives, buffer.pos, buffer.line)
            == Parse(buffer.text, old(buffer.pos), old(buffer.line), block)
    decreases |buffer.text| - buffer.pos, 1
  {
    hide Parse, ParseItem;
    directives := [];
    ghost var target := Parse(buffer.text, buffer.pos, buffer.line, block);
    while true
      invariant buffer.Valid() && buffer.pos >= old(buffer.pos)
      invariant var tail := Parse(buffer.text, buffer.pos, buffer.line, block);
                target == Parsed(tail.code, directives + tail.directives, tail.next, tail.line)
      decreases |buffer.text| - buffer.pos
    {
      UnfoldParse(buffer.text, buffer.pos, buffer.line, block);
      var found;
      ret, found := ReadDirective(buffer, block);
      if found.None? {
        return;
      }
      directives := directives + [found.value];
      if ret != Success {
        return;
      }
    }
  }

  /** What a whole file parses to; one without any text is refused. */
  function ParsedFile(text: string): Parsed {
    if text == "" then Parsed(Eof, [], 0, 1) else Parse(text, 0, 1, false)
  }

  /** Parses the text of a whole file. */
  method ParseFile(text: string) returns (ret: Code, directives: seq<Directive>)
    ensures var p := ParsedFile(text); ret == p.code && directives == p.directives
  {
    if text == "" {
      return Eof, [];
    }
    var buffer := new FileBuffer(text);
    ret, directives := ParseConf(buffer, false);
  }

  /** The structural comparison of two directives, either of which may be missing. */
  predicate DirectiveEquals(a: Option<Directive>, b: Option<Directive>) {
    if a.None? && b.None? then true
    else if a.None? || b.None? then false
    else SameDirective(a.value, b.value)
  }

  predicate SameDirective(a: Directive, b: Directive) {
    && a.name == b.name
    && |a.args| == |b.args|
    && (forall i :: 0 <= i < |a.args| ==> a.args[i] == b.args[i])
    && |a.directives| == |b.directives|
    && (forall i :: 0 <= i < |a.directives| ==> SameDirective(a.directives[i], b.directives[i]))
  }

  /** A directive without its line numbers. */
  function Unnumbered(d: Directive): Directive {
    Directive(0, d.name, d.args, UnnumberedAll(d.directives))
  }

  function UnnumberedAll(ds: seq<Directive>): (r: seq<Directive>)
    ensures |r| == |ds|
  {
    if ds == [] then [] else [Unnumbered(ds[0])] + UnnumberedAll(ds[1..])
  }

  lemma {:induction false} UnnumberedAt(ds: seq<Directive>, i: nat)
    requires i < |ds|
    ensures UnnumberedAll(ds)[i] == Unnumbered(ds[i])
  {
    if i > 0 {
      UnnumberedAt(ds[1..], i - 1);
    }
  }

  /** Two directives compare equal exactly when they differ in line numbers only. */
  lemma {:induction false} EqualsUpToLines(a: Directive, b: Directive)
    ensures SameDirective(a, b) <==> Unnumbered(a) == Unnumbered(b)
  {
    forall i | 0 <= i < |a.directives| && i < |b.directives|
      ensures UnnumberedAll(a.directives)[i] == Unnumbered(a.directives[i])
      ensures UnnumberedAll(b.directives)[i] == Unnumbered(b.directives[i])
      ensures SameDirective(a.directives[i], b.directives[i]) <==>
              Unnumbered(a.directives[i]) == Unnumbered(b.directives[i])
    {
      UnnumberedAt(a.directives, i);
      UnnumberedAt(b.directives, i);
      EqualsUpToLines(a.directives[i], b.directives[i]);
    }
    if SameDirective(a, b) {
      assert UnnumberedAll(a.directives) == UnnumberedAll(b.directives);
    }
  }
}
