/**
 The configuration lexer: a cursor over the text of the file and the quote- and
 comment-aware loop that cuts one directive's words out of it.
 */
module ConfLexer {

  const LF: char := '\n'
  const CR: char := '\r'

  predicate IsSpace(c: char) {
    c == ' ' || c == '\t' || c == CR || c == LF
  }

  /** What reading a directive, or parsing a block, reports. */
  datatype Code = Success | Invalid | Terminated | BlockStart | BlockEnd | Eof

  /** Where the scanner stands inside a directive. */
  datatype Mode = Blank | Comment | Bare | DoubleQuoted | SingleQuoted | AfterQuote

  /** One directive's words, what ended them, and where the scanner stopped. */
  datatype Lexeme = Lexeme(code: Code, args: seq<string>, next: nat, line: nat)

  /** The text a NUL-terminated copy of `s` stands for. */
  function CString(s: string): string {
    if s == "" || s[0] == '\0' then ""
    else [s[0]] + CString(s[1..])
  }

  function AddWord(args: seq<string>, word: string): seq<string> {
    if CString(word) == "" then args else args + [CString(word)]
  }

  function LineAfter(line: nat, c: char): nat {
    if c == LF then line + 1 else line
  }

  /** What one character does to the scanner. */
  datatype Move = Go(mode: Mode, word: string, args: seq<string>) | Stop(code: Code, args: seq<string>)

  /** One character read in a given mode, with `word` the part of the current word already read. */
  function Step(c: char, mode: Mode, word: string, args: seq<string>): Move {
    match if mode == Comment && c == LF then Blank else mode
    case Comment => Go(Comment, "", args)
    case AfterQuote =>
      if IsSpace(c) then Go(Blank, "", args)
      else if c == ';' then Stop(Terminated, args)
      else if c == '{' then Stop(BlockStart, args)
      else Stop(Invalid, args)
    case Blank =>
      if IsSpace(c) then Go(Blank, "", args)
      else if c == ';' then Stop(if args == [] then Invalid else Terminated, args)
      else if c == '{' then Stop(if args == [] then Invalid else BlockStart, args)
      else if c == '}' then Stop(if args != [] then Invalid else BlockEnd, args)
      else if c == '#' then Go(Comment, "", args)
      else if c == '"' then Go(DoubleQuoted, "", args)
      else if c == '\'' then Go(SingleQuoted, "", args)
      else Go(Bare, [c], args)
    case DoubleQuoted =>
      if c == '"' then Go(AfterQuote, "", AddWord(args, word)) else Go(DoubleQuoted, word + [c], args)
    case SingleQuoted =>
      if c == '\'' then Go(AfterQuote, "", AddWord(args, word)) else Go(SingleQuoted, word + [c], args)
    case Bare =>
      if IsSpace(c) then Go(Blank, "", AddWord(args, word))
      else if c == ';' then Stop(Terminated, AddWord(args, word))
      else if c == '{' then Stop(BlockStart, AddWord(args, word))
      else Go(Bare, word + [c], args)
  }

  /** The scanner as a function of the text and the read position. */
  function Lex(text: string, pos: nat, mode: Mode, word: string, args: seq<string>, line: nat): (r: Lexeme)
    requires pos <= |text|
    ensures pos <= r.next <= |text|
    ensures r.code != Success
    ensures r.code.Terminated? || r.code.BlockStart? || r.code.BlockEnd? ==> pos < r.next
    decreases |text| - pos
  {
    if pos == |text| then
      Lexeme(if args != [] || (mode != Blank && mode != Comment) then Invalid else Eof, args, pos, line)
    else
      match Step(text[pos], mode, word, args)
      case Go(mode', word', args') => Lex(text, pos + 1, mode', word', args', LineAfter(line, text[pos]))
      case Stop(code, args') => Lexeme(code, args', pos + 1, LineAfter(line, text[pos]))
  }

  /** The file being parsed: its text, the read position and the line counter. */
  class FileBuffer {
    const text: string
    var pos: nat
    var line: nat

    ghost predicate Valid()
      reads this
    {
      pos <= |text|
    }

    constructor (content: string)
      ensures Valid() && text == content && pos == 0 && line == 1
    {
      text, pos, line := content, 0, 1;
    }

    predicate Empty()
      reads this
    {
      pos >= |text|
    }
  }

  /** The scanner's flags. */
  datatype Flags = Flags(sharpComment: bool, dQuoted: bool, sQuoted: bool, needSpace: bool, lastSpace: bool) {
    ghost predicate Valid() {
      && (sharpComment ==> lastSpace)
      && (needSpace || lastSpace ==> !dQuoted && !sQuoted)
      && (needSpace ==> !lastSpace)
      && !(dQuoted && sQuoted)
    }

    /** The mode that the flags stand for. */
    ghost function Reading(): Mode {
      if sharpComment then Comment
      else if needSpace then AfterQuote
      else if lastSpace then Blank
      else if dQuoted then DoubleQuoted
      else if sQuoted then SingleQuoted
      else Bare
    }

    ghost predicate InWord() {
      !needSpace && !lastSpace
    }

    /** The part of the current word that lies in front of `pos`. */
    ghost function Word(text: string, pstart: nat, pos: nat): string
      requires pstart <= pos <= |text|
    {
      if InWord() then text[pstart..pos] else ""
    }
  }

  /** The body of the scanning loop, for the character in front of `pos`: `code` is Success when
      the loop goes on. */
  method Feed(text: string, pos: nat, start: nat, flags: Flags, words: seq<string>)
    returns (code: Code, pstart: nat, f: Flags, args: seq<string>)
    requires 0 < pos <= |text| && start < pos && flags.Valid()
    ensures pstart <= pos && f.Valid()
    ensures Step(text[pos - 1], flags.Reading(), flags.Word(text, start, pos - 1), words)
         == if code == Success then Go(f.Reading(), f.Word(text, pstart, pos), args) else Stop(code, args)
  {
    var ch := text[pos - 1];
    code, pstart, f, args := Success, start, flags, words;
    if ch == LF {
      f := f.(sharpComment := false);
    }
    if f.sharpComment {
      return;
    }
    if f.needSpace {
      if IsSpace(ch) {
        f := f.(lastSpace := true, needSpace := false);
        return;
      }
      code := if ch == ';' then Terminated else if ch == '{' then BlockStart else Invalid;
      return;
    }
    if f.lastSpace {
      if IsSpace(ch) {
        return;
      }
      pstart := pos - 1;
      match ch {
        case ';' => code := if args == [] then Invalid else Terminated;
        case '{' => code := if args == [] then Invalid else BlockStart;
        case '}' => code := if args != [] then Invalid else BlockEnd;
        case '#' => f := f.(sharpComment := true);
        case '"' => pstart, f := pstart + 1, f.(dQuoted := true, lastSpace := false);
        case '\'' => pstart, f := pstart + 1, f.(sQuoted := true, lastSpace := false);
        case _ => f := f.(lastSpace := false);
      }
    } else {
      var found := false;
      if f.dQuoted {
        if ch == '"' {
          f, found := f.(dQuoted := false, needSpace := true), true;
        }
      } else if f.sQuoted {
        if ch == '\'' {
          f, found := f.(sQuoted := false, needSpace := true), true;
        }
      } else if IsSpace(ch) || ch == ';' || ch == '{' {
        f, found := f.(lastSpace := true), true;
      }
      if found {
        var aword := CString(text[pstart..pos - 1]);
        if aword != "" {
          args := args + [aword];
        }
        code := if ch == ';' then Terminated else if ch == '{' then BlockStart else Success;
      }
    }
  }

  /** Reads the words of one directive up to what ends it. */
  method ReadToken(buffer: FileBuffer) returns (ret: Code, args: seq<string>)
    requires buffer.Valid()
    modifies buffer
    ensures buffer.Valid()
    ensures Lexeme(ret, args, buffer.pos, buffer.line)
            == Lex(buffer.text, old(buffer.pos), Blank, "", [], old(buffer.line))
  {
    args := [];
    var pstart: nat := buffer.pos;
    var flags := Flags(false, false, false, false, true);
    ghost var target := Lex(buffer.text, buffer.pos, Blank, "", [], buffer.line);
    while true
      invariant buffer.Valid() && pstart <= buffer.pos && flags.Valid()
      invariant target == Lex(buffer.text, buffer.pos, flags.Reading(), flags.Word(buffer.text, pstart, buffer.pos),
                args, buffer.line)
      decreases |buffer.text| - buffer.pos
    {
      if buffer.Empty() {
        ret := if args != [] || !flags.lastSpace then Invalid else Eof;
        return;
      }
      buffer.pos := buffer.pos + 1;
      buffer.line := LineAfter(buffer.line, buffer.text[buffer.pos - 1]);
      ret, pstart, flags, args := Feed(buffer.text, buffer.pos, pstart, flags, args);
      if ret != Success {
        return;
      }
    }
  }
}
