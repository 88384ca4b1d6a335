/**
 The concrete syntax of the configuration language: how a file may be laid out, and the proof
 that the parser rebuilds the directives of every laid-out file. `ConfGrammar` shows that it accepts no
 other.
 */
module ConfSyntax {
  import opened ConfLexer
  import opened ConfParser
  import opened Pieces

  datatype Quoting = Plain | Double | Single

  /** A word, how it is quoted, and the blanks and comments in front of it. What it stands for ends at its
      first zero character, and if that is nothing the word is passed over. */
  datatype Word = Word(gap: string, quoting: Quoting, text: string)

  /** A laid-out directive; `gap` stands in front of its terminator or brace. */
  datatype Node = Node(words: seq<Word>, gap: string, block: Option<Block>)

  /** A laid-out block: behind its directives there may be words that stand for nothing; `gap` stands in
      front of its closing brace. */
  datatype Block = Block(nodes: seq<Node>, words: seq<Word>, gap: string)

  // ---------------------------------------------------------------- well-formed layouts

  /** Blanks and closed comments. */
  predicate Filler(g: string, inComment: bool) {
    if g == "" then !inComment
    else if inComment then Filler(g[1..], g[0] != LF)
    else (IsSpace(g[0]) || g[0] == '#') && Filler(g[1..], g[0] == '#')
  }

  /** Blanks and comments, the last of which need not be closed. */
  predicate Trailer(g: string, inComment: bool) {
    if g == "" then true
    else if inComment then Trailer(g[1..], g[0] != LF)
    else (IsSpace(g[0]) || g[0] == '#') && Trailer(g[1..], g[0] == '#')
  }

  /** A gap that separates it from the word in front: a `#` right after a word would not start
      a comment. */
  predicate Separates(g: string) {
    g != "" && IsSpace(g[0]) && Filler(g, false)
  }

  predicate EndsWord(c: char) {
    IsSpace(c) || c == ';' || c == '{'
  }

  predicate StartsPlain(c: char) {
    !EndsWord(c) && c != '}' && c != '#' && c != '"' && c != '\''
  }

  /** What a character must not be to stand inside a word. */
  predicate Inside(c: char, q: Quoting) {
    match q case Plain => !EndsWord(c) case Double => c != '"' case Single => c != '\''
  }

  predicate PlainText(t: string) {
    t != "" && StartsPlain(t[0]) && forall c :: c in t ==> !EndsWord(c)
  }

  predicate ValidWord(w: Word) {
    (w.quoting == Plain ==> PlainText(w.text)) && forall c :: c in w.text ==> Inside(c, w.quoting)
  }

  predicate ValidArgs(ws: seq<Word>) {
    ws != [] ==> ValidWord(ws[0]) && Separates(ws[0].gap) && ValidArgs(ws[1..])
  }

  /** The first word of a directive need not be separated from what is in front of it. */
  predicate ValidWords(ws: seq<Word>) {
    ws != [] ==> ValidWord(ws[0]) && Filler(ws[0].gap, false) && ValidArgs(ws[1..])
  }

  /** What the words stand for. */
  function Texts(ws: seq<Word>): seq<string> {
    if ws == [] then [] else AddWord([], ws[0].text) + Texts(ws[1..])
  }

  /** Words that stand for nothing, and a gap. */
  predicate IsHollow(ws: seq<Word>, gap: string) {
    Texts(ws) == [] && ValidWords(ws) && if ws == [] then Filler(gap, false) else Separates(gap)
  }

  /** The same at the end of a file. */
  predicate IsTrailer(ws: seq<Word>, gap: string) {
    && Texts(ws) == [] && ValidWords(ws)
    && Trailer(gap, false) && (ws != [] ==> gap != "" && IsSpace(gap[0]))
  }

  predicate ValidNode(n: Node) {
    && Texts(n.words) != [] && ValidWords(n.words)
    && (n.gap == "" || Separates(n.gap))
    && (n.block.Some? ==>
          ValidNodes(n.block.value.nodes) && IsHollow(n.block.value.words, n.block.value.gap))
  }

  predicate ValidNodes(ns: seq<Node>) {
    ns != [] ==> ValidNode(ns[0]) && ValidNodes(ns[1..])
  }

  // ---------------------------------------------------------------- printing

  function Mark(q: Quoting): char {
    if q == Double then '"' else '\''
  }

  function Quoted(w: Word): string {
    if w.quoting == Plain then w.text else [Mark(w.quoting)] + (w.text + [Mark(w.quoting)])
  }

  function PrintWord(w: Word): string {
    w.gap + Quoted(w)
  }

  function PrintWords(ws: seq<Word>): string {
    if ws == [] then "" else PrintWord(ws[0]) + PrintWords(ws[1..])
  }

  function Terminator(n: Node): string {
    if n.block.None? then ";" else "{"
  }

  function PrintHead(n: Node): string {
    PrintWords(n.words) + (n.gap + Terminator(n))
  }

  function PrintNode(n: Node): string {
    PrintHead(n) +
    if n.block.None? then ""
    else PrintNodes(n.block.value.nodes) + (PrintWords(n.block.value.words) + n.block.value.gap + "}")
  }

  function PrintNodes(ns: seq<Node>): string {
    if ns == [] then "" else PrintNode(ns[0]) + PrintNodes(ns[1..])
  }

  // ---------------------------------------------------------------- what a layout denotes

  /** The line after a piece of text that starts on `line`. */
  function Lines(s: string, line: nat): nat {
    if s == "" then line else Lines(s[1..], LineAfter(line, s[0]))
  }

  function Denote(n: Node, line: nat): Directive
    requires ValidNode(n)
  {
    Directive(Lines(PrintHead(n), line), Texts(n.words)[0], Texts(n.words)[1..],
              if n.block.None? then [] else DenoteAll(n.block.value.nodes, Lines(PrintHead(n), line)))
  }

  function DenoteAll(ns: seq<Node>, line: nat): seq<Directive>
    requires ValidNodes(ns)
  {
    if ns == [] then [] else [Denote(ns[0], line)] + DenoteAll(ns[1..], Lines(PrintNode(ns[0]), line))
  }

  // ---------------------------------------------------------------- reading back

  /** Cuts a printed piece in two, in the text and in the line count. */
  lemma Cut(text: string, pos: nat, a: string, b: string, line: nat)
    requires At(text, pos, a + b)
    ensures At(text, pos, a) && At(text, pos + |a|, b) && pos + |a| + |b| <= |text|
    ensures Lines(a + b, line) == Lines(b, Lines(a, line))
  {
    AtConcat(text, pos, a, b);
    LinesConcat(a, b, line);
  }

  lemma {:induction false} LinesConcat(a: string, b: string, line: nat)
    ensures Lines(a + b, line) == Lines(b, Lines(a, line))
  {
    if a == "" {
      assert a + b == b;
    } else {
      assert (a + b)[1..] == a[1..] + b;
      LinesConcat(a[1..], b, LineAfter(line, a[0]));
    }
  }

  lemma LinesOne(c: char, line: nat)
    ensures Lines([c], line) == LineAfter(line, c)
  {
    assert [c][1..] == "";
  }

  /** One step of the scanner. */
  lemma LexStep(text: string, pos: nat, mode: Mode, word: string, args: seq<string>, line: nat)
    requires pos < |text|
    ensures Lex(text, pos, mode, word, args, line)
         == match Step(text[pos], mode, word, args)
            case Go(m, w, a) => Lex(text, pos + 1, m, w, a, LineAfter(line, text[pos]))
            case Stop(code, a) => Lexeme(code, a, pos + 1, LineAfter(line, text[pos]))
  {}

  /** The scanner passes over a gap, and only counts its lines. */
  lemma {:induction false} LexGap(text: string, pos: nat, g: string, inComment: bool, args: seq<string>, line: nat)
    requires At(text, pos, g) && Filler(g, inComment)
    ensures pos + |g| <= |text|
    ensures Lex(text, pos, if inComment then Comment else Blank, "", args, line)
         == Lex(text, pos + |g|, Blank, "", args, Lines(g, line))
    decreases |g|
  {
    hide Lex, At;
    AtFits(text, pos, g);
    if g != "" {
      AtFirst(text, pos, g);
      LexStep(text, pos, if inComment then Comment else Blank, "", args, line);
      LexGap(text, pos + 1, g[1..], if inComment then g[0] != LF else g[0] == '#', args, LineAfter(line, g[0]));
    }
  }

  function ModeFor(q: Quoting): Mode {
    match q case Plain => Bare case Double => DoubleQuoted case Single => SingleQuoted
  }

  /** Inside a word the scanner collects everything that does not end it. */
  lemma {:induction false} LexBody(text: string, pos: nat, body: string, q: Quoting, word: string, args: seq<string>,
      line: nat)
    requires At(text, pos, body)
    requires forall c :: c in body ==> Inside(c, q)
    ensures pos + |body| <= |text|
    ensures Lex(text, pos, ModeFor(q), word, args, line)
         == Lex(text, pos + |body|, ModeFor(q), word + body, args, Lines(body, line))
    decreases |body|
  {
    hide Lex, At;
    AtFits(text, pos, body);
    if body == "" {
      assert word + body == word;
    } else {
      AtFirst(text, pos, body);
      assert Inside(body[0], q);
      assert word + [body[0]] + body[1..] == word + body;
      LexStep(text, pos, ModeFor(q), word, args, line);
      LexBody(text, pos + 1, body[1..], q, word + [body[0]], args, LineAfter(line, body[0]));
    }
  }

  lemma {:induction false} CStringOf(s: string)
    requires '\0' !in s
    ensures CString(s) == s
  {
    if s != "" {
      CStringOf(s[1..]);
    }
  }

  lemma AddWordAppends(args: seq<string>, word: string)
    ensures AddWord(args, word) == args + AddWord([], word)
  {}

  /** A word without quotes becomes one argument. */
  lemma LexPlain(text: string, pos: nat, t: string, args: seq<string>, line: nat)
    requires At(text, pos, t) && PlainText(t)
    requires pos + |t| < |text| && EndsWord(text[pos + |t|])
    ensures Lex(text, pos, Blank, "", args, line)
         == Lex(text, pos + |t|, AfterQuote, "", AddWord(args, t), Lines(t, line))
  {
    hide Lex, At, AddWord;
    AtFirst(text, pos, t);
    LexStep(text, pos, Blank, "", args, line);
    LexBody(text, pos + 1, t[1..], Plain, [t[0]], args, LineAfter(line, t[0]));
    assert [t[0]] + t[1..] == t;
    LexStep(text, pos + |t|, Bare, t, args, Lines(t, line));
    LexStep(text, pos + |t|, AfterQuote, "", AddWord(args, t), Lines(t, line));
  }

  lemma LexOpen(text: string, pos: nat, q: Quoting, args: seq<string>, line: nat)
    requires q != Plain && At(text, pos, [Mark(q)])
    ensures pos < |text|
    ensures Lex(text, pos, Blank, "", args, line) == Lex(text, pos + 1, ModeFor(q), "", args, line)
  {
    hide Lex, At;
    AtFirst(text, pos, [Mark(q)]);
    LexStep(text, pos, Blank, "", args, line);
  }

  lemma LexClose(text: string, pos: nat, q: Quoting, t: string, args: seq<string>, line: nat)
    requires q != Plain && At(text, pos, [Mark(q)])
    ensures pos < |text|
    ensures Lex(text, pos, ModeFor(q), t, args, line) == Lex(text, pos + 1, AfterQuote, "", AddWord(args, t), line)
  {
    hide Lex, At, AddWord;
    AtFirst(text, pos, [Mark(q)]);
    LexStep(text, pos, ModeFor(q), t, args, line);
  }

  /** A quoted word becomes one argument. */
  lemma LexQuoted(text: string, pos: nat, q: Quoting, t: string, args: seq<string>, line: nat)
    requires q != Plain && forall c :: c in t ==> Inside(c, q)
    requires At(text, pos, [Mark(q)] + (t + [Mark(q)]))
    ensures pos + |t| + 2 <= |text|
    ensures Lex(text, pos, Blank, "", args, line)
         == Lex(text, pos + |t| + 2, AfterQuote, "", AddWord(args, t), Lines([Mark(q)] + (t + [Mark(q)]), line))
  {
    hide Lex, At, Lines, Inside, ModeFor, AddWord;
    var m := [Mark(q)];
    Cut(text, pos, m, t + m, line);
    Cut(text, pos + 1, t, m, line);
    LinesOne(Mark(q), line);
    LinesOne(Mark(q), Lines(t, line));
    LexOpen(text, pos, q, args, line);
    LexBody(text, pos + 1, t, q, "", args, line);
    assert "" + t == t;
    LexClose(text, pos + 1 + |t|, q, t, args, Lines(t, line));
  }

  /** A whole word becomes one argument; the scanner then looks for what may follow a word. */
  lemma LexWord(text: string, pos: nat, w: Word, args: seq<string>, line: nat)
    requires At(text, pos, PrintWord(w)) && ValidWord(w) && Filler(w.gap, false)
    requires pos + |PrintWord(w)| < |text| && EndsWord(text[pos + |PrintWord(w)|])
    ensures Lex(text, pos, Blank, "", args, line)
         == Lex(text, pos + |PrintWord(w)|, AfterQuote, "", AddWord(args, w.text), Lines(PrintWord(w), line))
  {
    hide Lex, At, Lines, Filler, AddWord;
    var from, now := pos + |w.gap|, Lines(w.gap, line);
    Cut(text, pos, w.gap, Quoted(w), line);
    LexGap(text, pos, w.gap, false, args, line);
    if w.quoting == Plain {
      LexPlain(text, from, w.text, args, now);
    } else {
      LexQuoted(text, from, w.quoting, w.text, args, now);
    }
  }

  /** After a word, a separating gap is read as after a blank. */
  lemma LexSeparator(text: string, pos: nat, g: string, args: seq<string>, line: nat)
    requires At(text, pos, g) && g != "" && IsSpace(g[0])
    ensures pos < |text| && EndsWord(text[pos])
    ensures Lex(text, pos, AfterQuote, "", args, line) == Lex(text, pos, Blank, "", args, line)
  {
    hide At;
    AtFirst(text, pos, g);
  }

  /** What stands behind a word: the gap of the next one. */
  lemma NextWord(text: string, pos: nat, ws: seq<Word>)
    requires At(text, pos, PrintWords(ws)) && ValidArgs(ws) && ws != []
    ensures pos < |text| && EndsWord(text[pos])
  {
    hide At;
    var w := ws[0];
    Cut(text, pos, PrintWord(w), PrintWords(ws[1..]), 0);
    Cut(text, pos, w.gap, Quoted(w), 0);
    AtFirst(text, pos, w.gap);
  }

  /** One more word behind another. */
  lemma LexNext(text: string, pos: nat, w: Word, args: seq<string>, line: nat)
    requires At(text, pos, PrintWord(w)) && ValidWord(w) && Separates(w.gap)
    requires pos + |PrintWord(w)| < |text| && EndsWord(text[pos + |PrintWord(w)|])
    ensures Lex(text, pos, AfterQuote, "", args, line)
         == Lex(text, pos + |PrintWord(w)|, AfterQuote, "", AddWord(args, w.text), Lines(PrintWord(w), line))
  {
    hide Lex, At, Lines, Filler, AddWord;
    Cut(text, pos, w.gap, Quoted(w), line);
    LexSeparator(text, pos, w.gap, args, line);
    LexWord(text, pos, w, args, line);
  }

  lemma TextsStep(args: seq<string>, w: Word, ws: seq<Word>)
    ensures AddWord(args, w.text) + Texts(ws) == args + Texts([w] + ws)
  {
    AddWordAppends(args, w.text);
    assert ([w] + ws)[1..] == ws;
  }

  lemma {:induction false} LexWords(text: string, pos: nat, ws: seq<Word>, args: seq<string>, line: nat)
    requires At(text, pos, PrintWords(ws)) && ValidArgs(ws)
    requires pos + |PrintWords(ws)| < |text| && EndsWord(text[pos + |PrintWords(ws)|])
    ensures Lex(text, pos, AfterQuote, "", args, line)
         == Lex(text, pos + |PrintWords(ws)|, AfterQuote, "", args + Texts(ws), Lines(PrintWords(ws), line))
    decreases ws
  {
    hide Lex, At, PrintWord, ValidWord, Separates, AddWord;
    if ws == [] {
      assert args + Texts(ws) == args;
    } else {
      hide Lines, Texts;
      var w, p, more := ws[0], PrintWord(ws[0]), PrintWords(ws[1..]);
      Cut(text, pos, p, more, line);
      if ws[1..] != [] {
        NextWord(text, pos + |p|, ws[1..]);
      }
      LexNext(text, pos, w, args, line);
      LexWords(text, pos + |p|, ws[1..], AddWord(args, w.text), Lines(p, line));
      TextsStep(args, w, ws[1..]);
      assert [w] + ws[1..] == ws;
    }
  }

  /** All words of a directive. */
  lemma LexLine(text: string, pos: nat, ws: seq<Word>, line: nat)
    requires At(text, pos, PrintWords(ws)) && ValidWords(ws) && ws != []
    requires pos + |PrintWords(ws)| < |text| && EndsWord(text[pos + |PrintWords(ws)|])
    ensures Lex(text, pos, Blank, "", [], line)
         == Lex(text, pos + |PrintWords(ws)|, AfterQuote, "", Texts(ws), Lines(PrintWords(ws), line))
  {
    hide Lex, At, PrintWord, ValidWord, AddWord, Lines, Texts, ValidArgs;
    var w, p, more := ws[0], PrintWord(ws[0]), PrintWords(ws[1..]);
    Cut(text, pos, p, more, line);
    if ws[1..] != [] {
      NextWord(text, pos + |p|, ws[1..]);
    }
    LexWord(text, pos, w, [], line);
    LexWords(text, pos + |p|, ws[1..], AddWord([], w.text), Lines(p, line));
    TextsStep([], w, ws[1..]);
    assert [w] + ws[1..] == ws;
    assert [] + Texts(ws) == Texts(ws);
  }

  lemma LexTerminator(text: string, pos: nat, n: Node, mode: Mode, args: seq<string>, line: nat)
    requires At(text, pos, Terminator(n)) && args != [] && (mode == Blank || mode == AfterQuote)
    ensures pos < |text| && EndsWord(text[pos])
    ensures Lex(text, pos, mode, "", args, line)
         == Lexeme(if n.block.None? then Terminated else BlockStart, args, pos + 1, Lines(Terminator(n), line))
  {
    hide Lex, At;
    AtFirst(text, pos, Terminator(n));
    LexStep(text, pos, mode, "", args, line);
    LinesOne(text[pos], line);
  }

  /** Behind the words of a directive: its gap and its terminator. */
  lemma LexTail(text: string, pos: nat, n: Node, args: seq<string>, line: nat)
    requires At(text, pos, n.gap + Terminator(n)) && (n.gap == "" || Separates(n.gap)) && args != []
    ensures pos < |text| && EndsWord(text[pos])
    ensures Lex(text, pos, AfterQuote, "", args, line)
         == Lexeme(if n.block.None? then Terminated else BlockStart, args,
                   pos + |n.gap| + 1, Lines(n.gap + Terminator(n), line))
  {
    hide Lex, At, Terminator, Lines, EndsWord, Filler;
    var end, now := pos + |n.gap|, Lines(n.gap, line);
    Cut(text, pos, n.gap, Terminator(n), line);
    if n.gap == "" {
      NoLines(line);
      LexTerminator(text, end, n, AfterQuote, args, now);
    } else {
      LexSeparator(text, pos, n.gap, args, line);
      LexGap(text, pos, n.gap, false, args, line);
      LexTerminator(text, end, n, Blank, args, now);
    }
  }

  /** The words of a directive and its terminator make one lexeme. */
  lemma LexHead(text: string, pos: nat, n: Node, line: nat)
    requires At(text, pos, PrintHead(n)) && ValidNode(n)
    ensures Lex(text, pos, Blank, "", [], line)
         == Lexeme(if n.block.None? then Terminated else BlockStart, Texts(n.words),
                   pos + |PrintHead(n)|, Lines(PrintHead(n), line))
  {
    hide Lex, At, Lines, PrintWords, ValidWords, ValidNodes, Separates, IsHollow;
    var a, b := PrintWords(n.words), n.gap + Terminator(n);
    Cut(text, pos, a, b, line);
    LexTail(text, pos + |a|, n, Texts(n.words), Lines(a, line));
    LexLine(text, pos, n.words, line);
  }

  /** The scanner passes over words that stand for nothing. */
  lemma LexHollow(text: string, pos: nat, ws: seq<Word>, line: nat)
    requires At(text, pos, PrintWords(ws)) && ValidWords(ws) && ws != [] && Texts(ws) == []
    requires pos + |PrintWords(ws)| < |text| && IsSpace(text[pos + |PrintWords(ws)|])
    ensures Lex(text, pos, Blank, "", [], line)
         == Lex(text, pos + |PrintWords(ws)|, Blank, "", [], Lines(PrintWords(ws), line))
  {
    hide At, Lines, PrintWords, ValidWords;
    LexLine(text, pos, ws, line);
  }

  /** The scanner passes over all that is in front of a closing brace. */
  lemma LexUpToBrace(text: string, pos: nat, ws: seq<Word>, gap: string, line: nat)
    requires At(text, pos, PrintWords(ws) + gap) && IsHollow(ws, gap)
    ensures pos + |PrintWords(ws) + gap| <= |text|
    ensures Lex(text, pos, Blank, "", [], line)
         == Lex(text, pos + |PrintWords(ws) + gap|, Blank, "", [], Lines(PrintWords(ws) + gap, line))
  {
    hide Lex, At, Lines, Filler, ValidWords;
    var p := PrintWords(ws);
    Cut(text, pos, p, gap, line);
    if ws == [] {
      NoLines(line);
    } else {
      LexSeparator(text, pos + |p|, gap, [], Lines(p, line));
      AtFirst(text, pos + |p|, gap);
      LexHollow(text, pos, ws, line);
    }
    LexGap(text, pos + |p|, gap, false, [], Lines(p, line));
  }

  lemma LexBrace(text: string, pos: nat, line: nat)
    requires At(text, pos, "}")
    ensures Lex(text, pos, Blank, "", [], line) == Lexeme(BlockEnd, [], pos + 1, Lines("}", line))
  {
    hide Lex;
    LinesOne('}', line);
    LexStep(text, pos, Blank, "", [], line);
  }

  /** The closing brace ends the block. */
  lemma ParseClose(text: string, pos: nat, ws: seq<Word>, gap: string, line: nat)
    requires At(text, pos, PrintWords(ws) + gap + "}") && IsHollow(ws, gap)
    ensures var all := PrintWords(ws) + gap + "}";
            Parse(text, pos, line, true) == Parsed(Success, [], pos + |all|, Lines(all, line))
  {
    hide Lex, At, Lines, IsHollow, PrintWords;
    var before := PrintWords(ws) + gap;
    Cut(text, pos, before, "}", line);
    LexUpToBrace(text, pos, ws, gap, line);
    LexBrace(text, pos + |before|, Lines(before, line));
  }

  lemma NoLines(line: nat)
    ensures Lines("", line) == line
  {}

  lemma {:induction false} ParseNode(text: string, pos: nat, n: Node, line: nat, block: bool)
    requires At(text, pos, PrintNode(n)) && ValidNode(n)
    ensures ParseItem(text, pos, line, block)
         == Item(Success, Some(Denote(n, line)), pos + |PrintNode(n)|, Lines(PrintNode(n), line))
    decreases n, 0
  {
    hide Lex, At, Lines, PrintHead, IsHollow, ValidWords, Separates, Texts, PrintWords, Parse;
    var head := PrintHead(n);
    var from, now := pos + |head|, Lines(head, line);
    if n.block.None? {
      assert PrintNode(n) == head;
      LexHead(text, pos, n, line);
    } else {
      hide PrintNodes, ValidNodes, DenoteAll;
      var b, body := n.block.value, PrintNodes(n.block.value.nodes);
      var end := PrintWords(b.words) + b.gap + "}";
      Cut(text, pos, head, body + end, line);
      Cut(text, from, body, end, now);
      LexHead(text, pos, n, line);
      ParseNodes(text, from, b.nodes, now, true);
      ParseClose(text, from + |body|, b.words, b.gap, Lines(body, now));
      assert DenoteAll(b.nodes, now) + [] == DenoteAll(b.nodes, now);
    }
  }

  /** A parsed directive goes in front of those behind it. */
  lemma ParseStep(text: string, pos: nat, line: nat, block: bool, d: Directive, next: nat, now: nat)
    requires pos <= next <= |text|
    requires ParseItem(text, pos, line, block) == Item(Success, Some(d), next, now)
    ensures var more := Parse(text, next, now, block);
            Parse(text, pos, line, block) == Parsed(more.code, [d] + more.directives, more.next, more.line)
  {
    hide ParseItem;
  }

  lemma NodesStep(ns: seq<Node>, line: nat)
    requires ValidNodes(ns)
    ensures ns == [] ==> PrintNodes(ns) == [] && DenoteAll(ns, line) == [] && Lines([], line) == line
    ensures ns != [] ==>
              && ValidNode(ns[0]) && ValidNodes(ns[1..])
              && PrintNodes(ns) == PrintNode(ns[0]) + PrintNodes(ns[1..])
              && DenoteAll(ns, line) == [Denote(ns[0], line)] + DenoteAll(ns[1..], Lines(PrintNode(ns[0]), line))
  {
    hide PrintNode, Denote, ValidNode;
  }

  /** Parsing goes through laid-out directives one by one and then carries on behind them. */
  lemma {:induction false} ParseNodes(text: string, pos: nat, ns: seq<Node>, line: nat, block: bool)
    requires At(text, pos, PrintNodes(ns)) && ValidNodes(ns)
    ensures pos + |PrintNodes(ns)| <= |text|
    ensures var rest := Parse(text, pos + |PrintNodes(ns)|, Lines(PrintNodes(ns), line), block);
            Parse(text, pos, line, block) == Parsed(rest.code, DenoteAll(ns, line) + rest.directives, rest.next,
                rest.line)
    decreases ns, 1
  {
    hide At, Parse, PrintNode, Denote, ValidNode, PrintNodes, DenoteAll, ValidNodes;
    AtFits(text, pos, PrintNodes(ns));
    NodesStep(ns, line);
    if ns == [] {
      var rest := Parse(text, pos, line, block);
      assert DenoteAll(ns, line) + rest.directives == rest.directives;
    } else {
      hide Lines;
      var p, more := PrintNode(ns[0]), PrintNodes(ns[1..]);
      var from, now, d := pos + |p|, Lines(p, line), Denote(ns[0], line);
      Cut(text, pos, p, more, line);
      ParseNode(text, pos, ns[0], line, block);
      ParseStep(text, pos, line, block, d, from, now);
      ParseNodes(text, from, ns[1..], now, block);
      var rest := Parse(text, from + |more|, Lines(more, now), block).directives;
      Assoc([d], DenoteAll(ns[1..], now), rest);
    }
  }

  /** Only blanks and comments are left; the last one may go on to the end of the file. */
  lemma {:induction false} LexTrailer(text: string, pos: nat, g: string, inComment: bool, line: nat)
    requires At(text, pos, g) && Trailer(g, inComment) && pos + |g| == |text|
    ensures Lex(text, pos, if inComment then Comment else Blank, "", [], line)
         == Lexeme(Eof, [], |text|, Lines(g, line))
    decreases |g|
  {
    hide At;
    if g != "" {
      hide Lex;
      AtFirst(text, pos, g);
      LexStep(text, pos, if inComment then Comment else Blank, "", [], line);
      LexTrailer(text, pos + 1, g[1..], if inComment then g[0] != LF else g[0] == '#', LineAfter(line, g[0]));
    }
  }

  lemma ParseEnd(text: string, pos: nat, ws: seq<Word>, gap: string, line: nat)
    requires At(text, pos, PrintWords(ws) + gap) && IsTrailer(ws, gap) && pos + |PrintWords(ws) + gap| == |text|
    ensures Parse(text, pos, line, false) == Parsed(Success, [], |text|, Lines(PrintWords(ws) + gap, line))
  {
    hide Lex, At, Lines, Trailer, ValidWords;
    var p := PrintWords(ws);
    Cut(text, pos, p, gap, line);
    if ws == [] {
      assert Lines("", line) == line by { NoLines(line); }
    } else {
      AtFirst(text, pos + |p|, gap);
      LexHollow(text, pos, ws, line);
    }
    LexTrailer(text, pos + |p|, gap, false, Lines(p, line));
  }

  /** A laid-out file: directives, words that stand for nothing, blanks and comments. */
  datatype File = File(nodes: seq<Node>, words: seq<Word>, gap: string)

  predicate ValidFile(f: File) {
    ValidNodes(f.nodes) && IsTrailer(f.words, f.gap)
  }

  function PrintFile(f: File): string {
    PrintNodes(f.nodes) + (PrintWords(f.words) + f.gap)
  }

  /** Every laid-out file parses, to exactly the directives it denotes, on the lines where their words
      end. */
  lemma FileParses(f: File)
    requires ValidFile(f) && PrintFile(f) != ""
    ensures var text := PrintFile(f);
            ParsedFile(text) == Parsed(Success, DenoteAll(f.nodes, 1), |text|, Lines(text, 1))
  {
    var body, tail := PrintNodes(f.nodes), PrintWords(f.words) + f.gap;
    var text := PrintFile(f);
    AtWhole(text);
    hide Lines, At, Parse, PrintNodes, PrintWords, ValidNodes, DenoteAll, IsTrailer;
    Cut(text, 0, body, tail, 1);
    ParseNodes(text, 0, f.nodes, 1, false);
    ParseEnd(text, |body|, f.words, f.gap, Lines(body, 1));
    assert DenoteAll(f.nodes, 1) + [] == DenoteAll(f.nodes, 1);
  }
}
