/** The parser accepts no file that is not laid out as `ConfSyntax` says. */
module ConfGrammar {
  import opened ConfLexer
  import opened ConfParser
  import opened ConfSyntax
  import opened Pieces

  // ---------------------------------------------------------------- what is left of a directive

  /** What ends a lexeme. */
  function Last(code: Code): string {
    if code == Terminated then ";" else if code == BlockStart then "{" else if code == BlockEnd then "}" else ""
  }

  predicate IsGood(code: Code) {
    code == Terminated || code == BlockStart || code == BlockEnd || code == Eof
  }

  /** A gap in front of the end of a lexeme, from a blank or a comment on. */
  predicate Closes(code: Code, gap: string, inComment: bool) {
    if code == Eof then Trailer(gap, inComment) else Filler(gap, inComment)
  }

  /** The same behind a word. */
  predicate ClosesWord(code: Code, gap: string) {
    if gap == "" then code == Terminated || code == BlockStart else IsSpace(gap[0]) && Closes(code, gap, false)
  }

  predicate FromBlank(ws: seq<Word>, gap: string, code: Code, inComment: bool) {
    if ws == [] then Closes(code, gap, inComment)
    else ValidWord(ws[0]) && Filler(ws[0].gap, inComment) && ValidArgs(ws[1..]) && ClosesWord(code, gap)
  }

  predicate FromWord(ws: seq<Word>, gap: string, code: Code) {
    ValidArgs(ws) && ClosesWord(code, gap)
  }

  function QuotingOf(mode: Mode): Quoting {
    if mode == DoubleQuoted then Double else if mode == SingleQuoted then Single else Plain
  }

  predicate IsInWord(mode: Mode) {
    mode == Bare || mode == DoubleQuoted || mode == SingleQuoted
  }

  /** What the scanner can still read in a mode: the rest of a word, words and a gap. */
  predicate Fits(mode: Mode, body: string, ws: seq<Word>, gap: string, code: Code) {
    if IsInWord(mode) then (forall c :: c in body ==> Inside(c, QuotingOf(mode))) && FromWord(ws, gap, code)
    else body == "" && if mode == AfterQuote then FromWord(ws, gap, code) else FromBlank(ws, gap, code, mode == Comment)
  }

  function PrintRest(mode: Mode, body: string, ws: seq<Word>, gap: string): string {
    var rest := PrintWords(ws) + gap;
    if mode == DoubleQuoted || mode == SingleQuoted then body + ([Mark(QuotingOf(mode))] + rest) else body + rest
  }

  function ArgsOf(mode: Mode, word: string, body: string, args: seq<string>, ws: seq<Word>): seq<string> {
    (if IsInWord(mode) then AddWord(args, word + body) else args) + Texts(ws)
  }

  // ---- one character in front of it

  function Wider(c: char, ws: seq<Word>): seq<Word> {
    if ws == [] then [] else [ws[0].(gap := [c] + ws[0].gap)] + ws[1..]
  }

  function WiderGap(c: char, ws: seq<Word>, gap: string): string {
    if ws == [] then [c] + gap else gap
  }

  lemma WiderWord(c: char, w: Word)
    ensures PrintWord(w.(gap := [c] + w.gap)) == [c] + PrintWord(w)
    ensures ValidWord(w.(gap := [c] + w.gap)) == ValidWord(w)
  {}

  lemma WiderPrints(c: char, ws: seq<Word>, gap: string)
    ensures PrintWords(Wider(c, ws)) + WiderGap(c, ws, gap) == [c] + (PrintWords(ws) + gap)
    ensures Texts(Wider(c, ws)) == Texts(ws)
  {
    hide PrintWord, AddWord;
    if ws == [] {
      assert "" + ([c] + gap) == [c] + ("" + gap);
    } else {
      WiderWord(c, ws[0]);
      assert Wider(c, ws)[1..] == ws[1..];
      Assoc([c], PrintWord(ws[0]), PrintWords(ws[1..]));
      Assoc([c], PrintWords(ws), gap);
    }
  }

  lemma FillerStep(c: char, g: string, inComment: bool)
    ensures Filler([c] + g, inComment)
         == if inComment then Filler(g, c != LF) else (IsSpace(c) || c == '#') && Filler(g, c == '#')
    ensures Trailer([c] + g, inComment)
         == if inComment then Trailer(g, c != LF) else (IsSpace(c) || c == '#') && Trailer(g, c == '#')
  {
    assert ([c] + g)[1..] == g;
  }

  /** A blank, the beginning of a comment, or a character in one. */
  lemma WiderFits(c: char, ws: seq<Word>, gap: string, code: Code, inComment: bool)
    requires FromBlank(ws, gap, code, if inComment then c != LF else c == '#') && IsGood(code)
    requires inComment || IsSpace(c) || c == '#'
    ensures var v, g := Wider(c, ws), WiderGap(c, ws, gap);
            FromBlank(v, g, code, inComment) && (!inComment && IsSpace(c) ==> FromWord(v, g, code))
  {
    hide ValidWord;
    if ws == [] {
      FillerStep(c, gap, inComment);
    } else {
      FillerStep(c, ws[0].gap, inComment);
      WiderWord(c, ws[0]);
      assert Wider(c, ws)[1..] == ws[1..];
    }
  }

  // ---- a word in front of it

  lemma WordPrints(w: Word, ws: seq<Word>, gap: string)
    requires w.gap == ""
    ensures PrintWords([w] + ws) + gap == Quoted(w) + (PrintWords(ws) + gap)
    ensures Texts([w] + ws) == AddWord([], w.text) + Texts(ws)
  {
    assert ([w] + ws)[1..] == ws;
    assert "" + Quoted(w) == Quoted(w);
  }

  lemma WordFits(w: Word, ws: seq<Word>, gap: string, code: Code)
    requires w.gap == "" && ValidWord(w) && FromWord(ws, gap, code)
    ensures FromBlank([w] + ws, gap, code, false)
  {
    assert ([w] + ws)[1..] == ws;
  }

  // ---------------------------------------------------------------- lexemes

  lemma AddNothing(word: string)
    ensures word + "" == word
  {}

  /** At the end of the file nothing has to follow. */
  lemma AtEnd(text: string, pos: nat, mode: Mode, word: string, args: seq<string>, line: nat)
    requires pos == |text| && IsGood(Lex(text, pos, mode, word, args, line).code)
    ensures Lex(text, pos, mode, word, args, line) == Lexeme(Eof, [], pos, line) && args == []
    ensures Fits(mode, "", [], "", Eof) && PrintRest(mode, "", [], "") == "" && ArgsOf(mode, word, "", args, []) == []
  {}

  /** Nothing is between the terminator and what is in front of it. */
  lemma AtStop(c: char, mode: Mode, word: string, args: seq<string>)
    requires Step(c, mode, word, args).Stop? && IsGood(Step(c, mode, word, args).code)
    ensures var stop := Step(c, mode, word, args);
            && Fits(mode, "", [], "", stop.code) && PrintRest(mode, "", [], "") + Last(stop.code) == [c]
            && stop.args == ArgsOf(mode, word, "", args, [])
            && stop.code != Eof && (stop.code == BlockEnd ==> stop.args == [])
  {
    hide AddWord;
    AddNothing(word);
  }

  /** What the scanner has read when a lexeme is complete. */
  lemma {:induction false} LexIsLaidOut(text: string, pos: nat, mode: Mode, word: string, args: seq<string>, line: nat)
      returns (body: string, ws: seq<Word>, gap: string)
    requires pos <= |text| && IsGood(Lex(text, pos, mode, word, args, line).code)
    ensures var r := Lex(text, pos, mode, word, args, line);
            && Fits(mode, body, ws, gap, r.code)
            && text[pos..r.next] == PrintRest(mode, body, ws, gap) + Last(r.code)
            && r.args == ArgsOf(mode, word, body, args, ws)
            && (r.code == BlockEnd || r.code == Eof ==> r.args == [])
            && (r.code == Eof ==> r.next == |text|)
    decreases |text| - pos
  {
    hide Lex, Step, Fits, PrintRest, ArgsOf, Last;
    if pos == |text| {
      AtEnd(text, pos, mode, word, args, line);
      body, ws, gap := "", [], "";
      assert Last(Eof) == "" by { NoLast(); }
    } else {
      LexStep(text, pos, mode, word, args, line);
      var c := text[pos];
      match Step(c, mode, word, args) {
        case Stop(code, all) =>
          body, ws, gap := "", [], "";
          AtStop(c, mode, word, args);
        case Go(m, w, a) =>
          var b, v, g := LexIsLaidOut(text, pos + 1, m, w, a, LineAfter(line, c));
          var r := Lex(text, pos, mode, word, args, line);
          assert text[pos..r.next] == [c] + text[pos + 1..r.next];
          body, ws, gap := OneMore(c, mode, word, args, b, v, g, r.code);
          Assoc([c], PrintRest(m, b, v, g), Last(r.code));
      }
    }
  }

  lemma NoLast()
    ensures Last(Eof) == ""
  {}

  /** One character more in front of what can still be read. */
  lemma OneMore(c: char, mode: Mode, word: string, args: seq<string>, b: string, v: seq<Word>, g: string, code: Code)
      returns (body: string, ws: seq<Word>, gap: string)
    requires IsGood(code) && Step(c, mode, word, args).Go?
    requires Fits(Step(c, mode, word, args).mode, b, v, g, code)
    ensures Fits(mode, body, ws, gap, code)
    ensures var go := Step(c, mode, word, args);
            && PrintRest(mode, body, ws, gap) == [c] + PrintRest(go.mode, b, v, g)
            && ArgsOf(mode, word, body, args, ws) == ArgsOf(go.mode, go.word, b, go.args, v)
  {
    hide Fits, PrintRest, ArgsOf;
    if IsInWord(mode) {
      body, ws, gap := MoreOfWord(c, mode, word, args, b, v, g, code);
    } else if IsInWord(Step(c, mode, word, args).mode) {
      AsBlank(c, mode, word, args, b, v, g, code);
      body, ws, gap := NewWord(c, args, b, v, g, code);
    } else {
      body, ws, gap := MoreGap(c, mode, word, args, b, v, g, code);
    }
  }

  /** Only a blank is followed by the first character of a word. */
  lemma AsBlank(c: char, mode: Mode, word: string, args: seq<string>, b: string, v: seq<Word>, g: string, code: Code)
    requires !IsInWord(mode) && Step(c, mode, word, args).Go? && IsInWord(Step(c, mode, word, args).mode)
    ensures mode == Blank && Step(c, Blank, "", args) == Step(c, mode, word, args)
    ensures forall body: string, ws :: ArgsOf(Blank, word, body, args, ws) == ArgsOf(Blank, "", body, args, ws)
  {
    hide AddWord, Texts;
  }

  lemma StepInWord(c: char, mode: Mode, word: string, args: seq<string>)
    requires IsInWord(mode)
    ensures var go := Step(c, mode, word, args);
            if Inside(c, QuotingOf(mode)) then go == Go(mode, word + [c], args)
            else if mode == Bare then go.Go? ==> IsSpace(c) && go == Go(Blank, "", AddWord(args, word))
            else c == Mark(QuotingOf(mode)) && go == Go(AfterQuote, "", AddWord(args, word))
  {
    hide AddWord;
  }

  /** The character is in a word, or ends it. */
  lemma MoreOfWord(c: char, mode: Mode, word: string, args: seq<string>, b: string, v: seq<Word>, g: string,
      code: Code) returns (body: string, ws: seq<Word>, gap: string)
    requires IsInWord(mode) && IsGood(code) && Step(c, mode, word, args).Go?
    requires Fits(Step(c, mode, word, args).mode, b, v, g, code)
    ensures Fits(mode, body, ws, gap, code)
    ensures var go := Step(c, mode, word, args);
            && PrintRest(mode, body, ws, gap) == [c] + PrintRest(go.mode, b, v, g)
            && ArgsOf(mode, word, body, args, ws) == ArgsOf(go.mode, go.word, b, go.args, v)
  {
    hide Step, Fits, PrintRest, ArgsOf, AddWord, Inside;
    StepInWord(c, mode, word, args);
    if Inside(c, QuotingOf(mode)) {
      body, ws, gap := [c] + b, v, g;
      InsideWord(c, mode, word, args, b, v, g, code);
    } else if mode == Bare {
      body, ws, gap := "", Wider(c, v), WiderGap(c, v, g);
      BareWordEnds(c, word, args, b, v, g, code);
    } else {
      body, ws, gap := "", v, g;
      QuoteCloses(mode, word, args, b, v, g, code);
    }
  }

  lemma InsideWord(c: char, mode: Mode, word: string, args: seq<string>, b: string, v: seq<Word>, g: string,
      code: Code)
    requires IsInWord(mode) && Inside(c, QuotingOf(mode)) && Fits(mode, b, v, g, code)
    ensures Fits(mode, [c] + b, v, g, code) && PrintRest(mode, [c] + b, v, g) == [c] + PrintRest(mode, b, v, g)
    ensures ArgsOf(mode, word, [c] + b, args, v) == ArgsOf(mode, word + [c], b, args, v)
  {
    hide FromWord, AddWord, Texts, PrintWords, Inside;
    assert word + ([c] + b) == word + [c] + b;
    var rest := PrintWords(v) + g;
    Assoc([c], b, rest);
    Assoc([c], b, [Mark(QuotingOf(mode))] + rest);
  }

  lemma BareWordEnds(c: char, word: string, args: seq<string>, b: string, v: seq<Word>, g: string, code: Code)
    requires IsSpace(c) && IsGood(code) && Fits(Blank, b, v, g, code)
    ensures Fits(Bare, "", Wider(c, v), WiderGap(c, v, g), code)
    ensures PrintRest(Bare, "", Wider(c, v), WiderGap(c, v, g)) == [c] + PrintRest(Blank, b, v, g)
    ensures ArgsOf(Bare, word, "", args, Wider(c, v)) == ArgsOf(Blank, "", b, AddWord(args, word), v)
  {
    hide FromBlank, FromWord, AddWord, Texts, PrintWords;
    AddNothing(word);
    WiderPrints(c, v, g);
    WiderFits(c, v, g, code, false);
  }

  lemma QuoteCloses(mode: Mode, word: string, args: seq<string>, b: string, v: seq<Word>, g: string, code: Code)
    requires IsInWord(mode) && mode != Bare && Fits(AfterQuote, b, v, g, code)
    ensures Fits(mode, "", v, g, code)
    ensures PrintRest(mode, "", v, g) == [Mark(QuotingOf(mode))] + PrintRest(AfterQuote, b, v, g)
    ensures ArgsOf(mode, word, "", args, v) == ArgsOf(AfterQuote, "", b, AddWord(args, word), v)
  {
    hide FromWord, AddWord, Texts, PrintWords;
    AddNothing(word);
  }

  /** The character is a blank, opens a comment or is in one. */
  lemma MoreGap(c: char, mode: Mode, word: string, args: seq<string>, b: string, v: seq<Word>, g: string,
      code: Code) returns (body: string, ws: seq<Word>, gap: string)
    requires !IsInWord(mode) && IsGood(code)
    requires var go := Step(c, mode, word, args);
             go.Go? && !IsInWord(go.mode) && Fits(go.mode, b, v, g, code)
    ensures Fits(mode, body, ws, gap, code)
    ensures var go := Step(c, mode, word, args);
            && PrintRest(mode, body, ws, gap) == [c] + PrintRest(go.mode, b, v, g)
            && ArgsOf(mode, word, body, args, ws) == ArgsOf(go.mode, go.word, b, go.args, v)
  {
    hide FromBlank, FromWord, AddWord, Texts, PrintWords;
    body, ws, gap := "", Wider(c, v), WiderGap(c, v, g);
    WiderPrints(c, v, g);
    WiderFits(c, v, g, code, mode == Comment);
  }

  /** The character opens a word. */
  lemma NewWord(c: char, args: seq<string>, b: string, v: seq<Word>, g: string, code: Code)
      returns (body: string, ws: seq<Word>, gap: string)
    requires IsGood(code) && Step(c, Blank, "", args).Go? && IsInWord(Step(c, Blank, "", args).mode)
    requires Fits(Step(c, Blank, "", args).mode, b, v, g, code)
    ensures Fits(Blank, body, ws, gap, code)
    ensures var go := Step(c, Blank, "", args);
            && PrintRest(Blank, body, ws, gap) == [c] + PrintRest(go.mode, b, v, g)
            && ArgsOf(Blank, "", body, args, ws) == ArgsOf(go.mode, go.word, b, go.args, v)
  {
    hide FromBlank, FromWord, AddWord, Texts, PrintWords;
    var go := Step(c, Blank, "", args);
    var w := Word("", QuotingOf(go.mode), go.word + b);
    body, ws, gap := "", [w] + v, g;
    WordPrints(w, v, g);
    WordFits(w, v, g, code);
    AddWordAppends(args, w.text);
  }

  // ---------------------------------------------------------------- directives

  /** The words of a directive. */
  lemma HeadIsLaidOut(text: string, pos: nat, line: nat) returns (ws: seq<Word>, gap: string)
    requires pos <= |text|
    requires var t := Lex(text, pos, Blank, "", [], line);
             (t.code == Terminated || t.code == BlockStart) && t.args != []
    ensures ValidWords(ws) && Texts(ws) != [] && (gap == "" || Separates(gap))
    ensures var t := Lex(text, pos, Blank, "", [], line);
            text[pos..t.next] == PrintWords(ws) + (gap + Last(t.code)) && t.args == Texts(ws)
  {
    hide Lex, PrintWords, Filler, Trailer, ValidArgs, ValidWord;
    var t := Lex(text, pos, Blank, "", [], line);
    var body;
    body, ws, gap := LexIsLaidOut(text, pos, Blank, "", [], line);
    assert t.args == [] + Texts(ws) == Texts(ws);
    assert "" + (PrintWords(ws) + gap) == PrintWords(ws) + gap;
    Assoc(PrintWords(ws), gap, Last(t.code));
  }

  /** What is in front of a closing brace or the end of the file. */
  lemma EndIsLaidOut(text: string, pos: nat, line: nat) returns (ws: seq<Word>, gap: string)
    requires pos <= |text|
    requires var code := Lex(text, pos, Blank, "", [], line).code; code == BlockEnd || code == Eof
    ensures var t := Lex(text, pos, Blank, "", [], line);
            && text[pos..t.next] == PrintWords(ws) + gap + Last(t.code)
            && (if t.code == BlockEnd then IsHollow(ws, gap) else IsTrailer(ws, gap) && t.next == |text|)
  {
    hide Lex, PrintWords, Filler, Trailer, ValidArgs, ValidWord, Texts;
    var t := Lex(text, pos, Blank, "", [], line);
    var body;
    body, ws, gap := LexIsLaidOut(text, pos, Blank, "", [], line);
    assert [] + Texts(ws) == Texts(ws);
    assert "" + (PrintWords(ws) + gap) == PrintWords(ws) + gap;
  }

  lemma {:induction false} ItemIsLaidOut(text: string, pos: nat, line: nat, block: bool) returns (n: Node)
    requires pos <= |text|
    requires ParseItem(text, pos, line, block).code == Success && ParseItem(text, pos, line, block).found.Some?
    ensures ValidNode(n) && text[pos..ParseItem(text, pos, line, block).next] == PrintNode(n)
    decreases |text| - pos, 0
  {
    hide Lex, Texts, PrintWords, ValidWords, Separates, Parse, PrintNodes, ValidNodes, IsHollow;
    var t := Lex(text, pos, Blank, "", [], line);
    var ws, gap := HeadIsLaidOut(text, pos, line);
    if t.code == Terminated {
      n := Node(ws, gap, None);
      assert PrintHead(n) + "" == PrintHead(n);
    } else {
      var nodes, words, g := ParseIsLaidOut(text, t.next, t.line, true);
      n := Node(ws, gap, Some(Block(nodes, words, g)));
      var next := Parse(text, t.next, t.line, true).next;
      assert text[pos..next] == text[pos..t.next] + text[t.next..next];
    }
  }

  lemma {:induction false} ParseIsLaidOut(text: string, pos: nat, line: nat, block: bool)
      returns (ns: seq<Node>, ws: seq<Word>, gap: string)
    requires pos <= |text| && Parse(text, pos, line, block).code == Success
    ensures ValidNodes(ns) && if block then IsHollow(ws, gap) else IsTrailer(ws, gap)
    ensures text[pos..Parse(text, pos, line, block).next]
         == PrintNodes(ns) + (PrintWords(ws) + gap + if block then "}" else "")
    ensures !block ==> Parse(text, pos, line, block).next == |text|
    decreases |text| - pos, 1
  {
    hide Lex, PrintWords, IsHollow, IsTrailer, PrintNode, ValidNode, ParseItem, Parse;
    var item := ParseItem(text, pos, line, block);
    UnfoldParse(text, pos, line, block);
    if item.found.None? {
      NothingFound(text, pos, line, block);
      ws, gap := EndIsLaidOut(text, pos, line);
      ns := [];
      var end := PrintWords(ws) + gap + if block then "}" else "";
      assert [] + end == end;
    } else {
      var n := ItemIsLaidOut(text, pos, line, block);
      var more;
      more, ws, gap := ParseIsLaidOut(text, item.next, item.line, block);
      ns := [n] + more;
      assert ns[1..] == more;
      var next := Parse(text, item.next, item.line, block).next;
      assert text[pos..next] == text[pos..item.next] + text[item.next..next];
      Assoc(PrintNode(n), PrintNodes(more), PrintWords(ws) + gap + if block then "}" else "");
    }
  }

  lemma NothingFound(text: string, pos: nat, line: nat, block: bool)
    requires pos <= |text|
    requires var item := ParseItem(text, pos, line, block); item.code == Success && item.found.None?
    ensures var t := Lex(text, pos, Blank, "", [], line);
            t.code == (if block then BlockEnd else Eof) && ParseItem(text, pos, line, block).next == t.next
  {
    hide Lex;
  }

  /** A file is accepted exactly when it is laid out by the rules; `FileParses` says what it then stands
      for. */
  lemma AcceptedIffLaidOut(text: string)
    requires text != ""
    ensures ParsedFile(text).code == Success <==> exists f: File :: ValidFile(f) && PrintFile(f) == text
  {
    hide Parse, PrintNodes, PrintWords, ValidNodes, IsTrailer;
    if ParsedFile(text).code == Success {
      var ns, ws, gap := ParseIsLaidOut(text, 0, 1, false);
      var f := File(ns, ws, gap);
      assert PrintWords(ws) + gap + "" == PrintWords(ws) + gap && text[0..|text|] == text;
      assert ValidFile(f) && PrintFile(f) == text;
    }
    forall f: File | ValidFile(f) && PrintFile(f) == text
      ensures ParsedFile(text).code == Success
    {
      FileParses(f);
    }
  }
}
