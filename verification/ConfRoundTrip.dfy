/**
 Which directive trees the configuration language can express: those whose words can be
 written, printed canonically and read back, and no others.
 */
module ConfRoundTrip {
  import opened ConfLexer
  import opened ConfParser
  import opened ConfSyntax
  import opened Pieces

  /** A word that some quoting can express. A word with both kinds of quotes has to be readable
      without quotes. */
  predicate Writable(t: string) {
    t != "" && '\0' !in t && ('"' !in t || '\'' !in t || PlainText(t))
  }

  predicate AllWritable(ts: seq<string>) {
    forall t :: t in ts ==> Writable(t)
  }

  predicate WritableTree(ds: seq<Directive>) {
    ds != [] ==>
        && Writable(ds[0].name) && AllWritable(ds[0].args) && WritableTree(ds[0].directives)
        && WritableTree(ds[1..])
  }

  // ---------------------------------------------------------------- what is read is writable

  /** What is known of a word that is being read. */
  predicate Readable(mode: Mode, word: string) {
    match mode
    case Bare => PlainText(word)
    case DoubleQuoted => '"' !in word
    case SingleQuoted => '\'' !in word
    case _ => true
  }

  lemma {:induction false} CStringIsPrefix(s: string)
    ensures CString(s) <= s && '\0' !in CString(s)
  {
    if s != "" && s[0] != '\0' {
      CStringIsPrefix(s[1..]);
    }
  }

  lemma AddedWordIsWritable(mode: Mode, word: string, args: seq<string>)
    requires Readable(mode, word) && (mode.Bare? || mode.DoubleQuoted? || mode.SingleQuoted?) && AllWritable(args)
    ensures AllWritable(AddWord(args, word))
  {
    CStringIsPrefix(word);
    var w := CString(word);
    assert forall c :: c in w ==> c in word;
    if w != "" {
      assert Writable(w);
    }
  }

  lemma StepKeepsWritable(c: char, mode: Mode, word: string, args: seq<string>)
    requires Readable(mode, word) && AllWritable(args)
    ensures AllWritable(Step(c, mode, word, args).args)
    ensures var move := Step(c, mode, word, args); move.Go? ==> Readable(move.mode, move.word)
  {
    hide Writable, AddWord;
    if mode.Bare? || mode.DoubleQuoted? || mode.SingleQuoted? {
      AddedWordIsWritable(mode, word, args);
    }
  }

  lemma {:induction false} LexedIsWritable(text: string, pos: nat, mode: Mode, word: string, args: seq<string>,
      line: nat)
    requires pos <= |text| && Readable(mode, word) && AllWritable(args)
    ensures AllWritable(Lex(text, pos, mode, word, args, line).args)
    decreases |text| - pos
  {
    if pos < |text| {
      hide Lex, Step, Readable, AllWritable;
      LexStep(text, pos, mode, word, args, line);
      StepKeepsWritable(text[pos], mode, word, args);
      match Step(text[pos], mode, word, args) {
        case Go(m, w, a) => LexedIsWritable(text, pos + 1, m, w, a, LineAfter(line, text[pos]));
        case Stop(_, _) =>
      }
    }
  }

  lemma {:induction false} ParsedItemIsWritable(text: string, pos: nat, line: nat, block: bool)
    requires pos <= |text|
    ensures var item := ParseItem(text, pos, line, block);
            item.found.Some? ==> WritableTree([item.found.value])
    decreases |text| - pos, 0
  {
    hide Writable, Lex;
    LexedIsWritable(text, pos, Blank, "", [], line);
    var t := Lex(text, pos, Blank, "", [], line);
    if t.args != [] {
      assert t.args[0] in t.args && forall a :: a in t.args[1..] ==> a in t.args;
      if t.code.BlockStart? {
        ParsedIsWritable(text, t.next, t.line, true);
      }
    }
  }

  /** Whatever the text, every word in the tree read from it is writable. */
  lemma {:induction false} ParsedIsWritable(text: string, pos: nat, line: nat, block: bool)
    requires pos <= |text|
    ensures WritableTree(Parse(text, pos, line, block).directives)
    decreases |text| - pos, 1
  {
    hide Writable, AllWritable, ParseItem;
    ParsedItemIsWritable(text, pos, line, block);
    var item := ParseItem(text, pos, line, block);
    if item.found.Some? && item.code == Success {
      ParsedIsWritable(text, item.next, item.line, block);
      var more := Parse(text, item.next, item.line, block).directives;
      assert ([item.found.value] + more)[1..] == more;
    }
  }

  /** So is every word in the tree of a file. */
  lemma FileIsWritable(text: string)
    ensures WritableTree(ParsedFile(text).directives)
  {
    hide Parse;
    if text != "" {
      ParsedIsWritable(text, 0, 1, false);
    }
  }

  // ---------------------------------------------------------------- what is writable is read

  function Layout(gap: string, t: string): Word {
    Word(gap, if '"' !in t then Double else if '\'' !in t then Single else Plain, t)
  }

  function LayoutArgs(ts: seq<string>): seq<Word> {
    if ts == [] then [] else [Layout(" ", ts[0])] + LayoutArgs(ts[1..])
  }

  /** A canonical layout: one directive a line, words quoted where they can be. */
  function LayoutAll(ds: seq<Directive>): seq<Node> {
    if ds == [] then []
    else
      var d := ds[0];
      var block := if d.directives == [] then None else Some(Block(LayoutAll(d.directives), [], "\n"));
      [Node([Layout("\n", d.name)] + LayoutArgs(d.args), " ", block)] + LayoutAll(ds[1..])
  }

  /** The canonical file of a directive tree. */
  function CanonicalFile(ds: seq<Directive>): File {
    File(LayoutAll(ds), [], "\n")
  }

  function Canonical(ds: seq<Directive>): string {
    PrintFile(CanonicalFile(ds))
  }

  lemma GapsAreFillers()
    ensures Filler("", false) && Filler("\n", false) && Filler(" ", false)
    ensures Separates(" ") && IsHollow([], "\n") && IsTrailer([], "\n")
  {
    assert "\n"[1..] == "" && " "[1..] == "";
  }

  lemma LayoutIsValid(gap: string, t: string)
    requires Writable(t)
    ensures ValidWord(Layout(gap, t)) && AddWord([], Layout(gap, t).text) == [t]
  {
    CStringOf(t);
  }

  lemma {:induction false} LayoutArgsValid(ts: seq<string>)
    requires AllWritable(ts)
    ensures ValidArgs(LayoutArgs(ts)) && Texts(LayoutArgs(ts)) == ts
  {
    hide Writable, ValidWord, Layout, AddWord, Separates;
    GapsAreFillers();
    if ts != [] {
      assert ts[0] in ts && forall t :: t in ts[1..] ==> t in ts;
      LayoutIsValid(" ", ts[0]);
      LayoutGap(" ", ts[0]);
      LayoutArgsValid(ts[1..]);
      assert LayoutArgs(ts)[1..] == LayoutArgs(ts[1..]);
      assert ts == [ts[0]] + ts[1..];
    }
  }

  lemma LayoutGap(gap: string, t: string)
    ensures Layout(gap, t).gap == gap
  {}

  lemma LayoutWordsValid(d: Directive)
    requires Writable(d.name) && AllWritable(d.args)
    ensures var ws := [Layout("\n", d.name)] + LayoutArgs(d.args);
            ValidWords(ws) && Texts(ws) == [d.name] + d.args
  {
    hide Writable, AllWritable, ValidWord, LayoutArgs, Layout, AddWord, Filler, Separates;
    GapsAreFillers();
    LayoutIsValid("\n", d.name);
    LayoutArgsValid(d.args);
    LayoutGap("\n", d.name);
    assert ([Layout("\n", d.name)] + LayoutArgs(d.args))[1..] == LayoutArgs(d.args);
  }

  lemma {:induction false} LayoutAllValid(ds: seq<Directive>, line: nat)
    requires WritableTree(ds)
    ensures ValidNodes(LayoutAll(ds))
    ensures UnnumberedAll(DenoteAll(LayoutAll(ds), line)) == UnnumberedAll(ds)
  {
    hide Writable, AllWritable, ValidWords, PrintNode, PrintHead, Lines, Filler, Separates, Layout, LayoutArgs, Texts,
        IsHollow;
    if ds != [] {
      var d, n := ds[0], LayoutAll(ds)[0];
      GapsAreFillers();
      LayoutWordsValid(d);
      LayoutAllValid(d.directives, Lines(PrintHead(n), line));
      LayoutAllValid(ds[1..], Lines(PrintNode(n), line));
      assert LayoutAll(ds)[1..] == LayoutAll(ds[1..]);
      assert DenoteAll(LayoutAll(ds), line)[1..] == DenoteAll(LayoutAll(ds[1..]), Lines(PrintNode(n), line));
    }
  }

  /** Printing a writable tree canonically and parsing it gives the tree back, up to the line
      numbers that the reload comparison ignores. */
  lemma RoundTrip(ds: seq<Directive>)
    requires WritableTree(ds)
    ensures var p := ParsedFile(Canonical(ds));
            p.code == Success && UnnumberedAll(p.directives) == UnnumberedAll(ds)
  {
    hide Parse, PrintNodes, ValidNodes, LayoutAll, DenoteAll, UnnumberedAll, IsTrailer, WritableTree, Filler, Separates,
        IsHollow, Lines;
    LayoutAllValid(ds, 1);
    GapsAreFillers();
    FileParses(CanonicalFile(ds));
  }

  /** Line numbers do not matter for being writable. */
  lemma {:induction false} WritableUpToLines(a: seq<Directive>, b: seq<Directive>)
    requires UnnumberedAll(a) == UnnumberedAll(b) && WritableTree(a)
    ensures WritableTree(b)
  {
    hide Writable, AllWritable;
    if b != [] {
      assert UnnumberedAll(a)[0] == UnnumberedAll(b)[0] && UnnumberedAll(a)[1..] == UnnumberedAll(b)[1..];
      WritableUpToLines(a[0].directives, b[0].directives);
      WritableUpToLines(a[1..], b[1..]);
    }
  }

  /** A tree can be written as a configuration file exactly when each of its words is writable. */
  lemma ExpressibleIffWritable(ds: seq<Directive>)
    ensures WritableTree(ds) <==>
            exists text: string :: ParsedFile(text).code == Success
                                && UnnumberedAll(ParsedFile(text).directives) == UnnumberedAll(ds)
  {
    hide *;
    if WritableTree(ds) {
      RoundTrip(ds);
    }
    forall text: string | ParsedFile(text).code == Success
                       && UnnumberedAll(ParsedFile(text).directives) == UnnumberedAll(ds)
      ensures WritableTree(ds)
    {
      FileIsWritable(text);
      WritableUpToLines(ParsedFile(text).directives, ds);
    }
  }

  /** A word with both quotes and a blank: no file has a directive of that name. */
  lemma NotExpressible()
    ensures forall text: string, line: nat ::
              UnnumberedAll(ParsedFile(text).directives) != UnnumberedAll([Directive(line, "a\"b'c d", [], [])])
  {
    forall text: string, line: nat
      ensures UnnumberedAll(ParsedFile(text).directives) != UnnumberedAll([Directive(line, "a\"b'c d", [], [])])
    {
      var t := "a\"b'c d";
      assert t[1] == '"' && t[3] == '\'' && t[5] == ' ' && t[1] in t && t[3] in t && t[5] in t;
      assert !Writable(t);
      var ds := [Directive(line, t, [], [])];
      assert !WritableTree(ds);
      FileIsWritable(text);
      if UnnumberedAll(ParsedFile(text).directives) == UnnumberedAll(ds) {
        WritableUpToLines(ParsedFile(text).directives, ds);
      }
    }
  }
}
