/** Both lexers against printed token lists: code, strings with escapes, line comments and nested block
    comments, each printed and then lexed again. */
module LexerTrees {
  import opened Text
  import opened LeanLexer

  /** The inside of a block comment. */
  datatype Body =
    | End
    | Char(c: char, rest: Body)
    | Nested(inner: Body, rest: Body)

  function PrintBody(b: Body): string {
    match b
    case End => ""
    case Char(c, rest) => [c] + PrintBody(rest)
    case Nested(inner, rest) => "/-" + PrintBody(inner) + "-/" + PrintBody(rest)
  }

  /** No character begins an opener or a closer with the one printed behind it. */
  predicate BodyOk(b: Body) {
    match b
    case End => true
    case Char(c, rest) =>
      var next := (PrintBody(rest) + "-/")[0];
      !(c == '/' && next == '-') && !(c == '-' && next == '/') && BodyOk(rest)
    case Nested(inner, rest) => BodyOk(inner) && BodyOk(rest)
  }

  datatype StringChar = Raw(c: char) | Escaped(c: char)

  function PrintChars(cs: seq<StringChar>): string {
    if cs == [] then ""
    else (match cs[0] case Raw(c) => [c] case Escaped(c) => ['\\', c]) + PrintChars(cs[1..])
  }

  predicate CharsOk(cs: seq<StringChar>) {
    forall i :: 0 <= i < |cs| && cs[i].Raw? ==> cs[i].c != '"' && cs[i].c != '\\'
  }

  datatype Tokens =
    | Done
    | CodeThen(c: char, rest: Tokens)
    | StringThen(chars: seq<StringChar>, rest: Tokens)
    | BlockThen(body: Body, rest: Tokens)
    | LineThen(text: string, rest: Tokens)

  function Print(t: Tokens): string {
    match t
    case Done => ""
    case CodeThen(c, rest) => [c] + Print(rest)
    case StringThen(chars, rest) => "\"" + PrintChars(chars) + "\"" + Print(rest)
    case BlockThen(body, rest) => "/-" + PrintBody(body) + "-/" + Print(rest)
    case LineThen(text, rest) => "--" + text + Print(rest)
  }

  /** Code is no quote and begins no comment with what is printed behind it; a line comment ends at a newline or
      the end of the text. */
  predicate TokensOk(t: Tokens) {
    match t
    case Done => true
    case CodeThen(c, rest) =>
      && c != '"' && TokensOk(rest)
      && (c == '/' || c == '-' ==> Print(rest) == "" || Print(rest)[0] != '-')
    case StringThen(chars, rest) => CharsOk(chars) && TokensOk(rest)
    case BlockThen(body, rest) => BodyOk(body) && TokensOk(rest)
    case LineThen(text, rest) =>
      '\n' !in text && (rest.Done? || (rest.CodeThen? && rest.c == '\n')) && TokensOk(rest)
  }

  /** Spaces for everything but newlines. */
  function Blanks(s: string): (r: string)
    ensures |r| == |s|
  {
    seq(|s|, i requires 0 <= i < |s| => if s[i] == '\n' then '\n' else ' ')
  }

  lemma BlanksJoin(a: string, b: string)
    ensures Blanks(a + b) == Blanks(a) + Blanks(b)
  {
  }

  lemma BlankOne(c: char)
    ensures Blanks([c]) == [Blank1(c, false)]
  {
  }

  /** Code stays; strings and comments become blanks. */
  function Scrubbed(t: Tokens): string {
    match t
    case Done => ""
    case CodeThen(c, rest) => [c] + Scrubbed(rest)
    case StringThen(chars, rest) => Blanks("\"" + PrintChars(chars) + "\"") + Scrubbed(rest)
    case BlockThen(body, rest) => Blanks("/-" + PrintBody(body) + "-/") + Scrubbed(rest)
    case LineThen(text, rest) => Blanks("--" + text) + Scrubbed(rest)
  }

  // ---------- single tokens ----------

  lemma OneMore(c: char, rest: string, m: Mode)
    requires NextToken(c, Peek([c] + rest), m).width == 1
    ensures var t := NextToken(c, Peek([c] + rest), m);
      ScrubFrom([c] + rest, m) == [Blank1(c, t.code)] + ScrubFrom(rest, t.next)
  {
    assert ([c] + rest)[1..] == rest;
  }

  lemma TwoMore(a: char, b: char, rest: string, m: Mode)
    requires NextToken(a, Some(b), m).width == 2
    ensures ScrubFrom([a, b] + rest, m) == Blanks([a, b]) + ScrubFrom(rest, NextToken(a, Some(b), m).next)
  {
    var s := [a, b] + rest;
    assert Peek(s) == Some(b) && s[2..] == rest;
  }

  lemma {:induction false} BodyScrubs(b: Body, d: nat, tail: string)
    requires BodyOk(b) && d > 0
    ensures ScrubFrom(PrintBody(b) + "-/" + tail, Comment(d))
      == Blanks(PrintBody(b) + "-/") + ScrubFrom(tail, if d == 1 then Code else Comment(d - 1))
    decreases b
  {
    hide ScrubFrom, Blanks;
    match b {
      case End =>
        TwoMore('-', '/', tail, Comment(d));
        assert "" + "-/" + tail == ['-', '/'] + tail && "" + "-/" == ['-', '/'];
      case Char(c, rest) =>
        var more := PrintBody(rest) + "-/" + tail;
        assert [c] + PrintBody(rest) + "-/" + tail == [c] + more;
        assert ([c] + more)[1] == (PrintBody(rest) + "-/")[0];
        OneMore(c, more, Comment(d));
        BodyScrubs(rest, d, tail);
        assert [c] + PrintBody(rest) + "-/" == [c] + (PrintBody(rest) + "-/");
        BlanksJoin([c], PrintBody(rest) + "-/");
        BlankOne(c);
      case Nested(inner, rest) =>
        NestedScrubs(inner, rest, d, tail);
    }
  }

  lemma {:induction false} NestedScrubs(inner: Body, rest: Body, d: nat, tail: string)
    requires BodyOk(inner) && BodyOk(rest) && d > 0
    ensures ScrubFrom("/-" + PrintBody(inner) + "-/" + PrintBody(rest) + "-/" + tail, Comment(d))
      == Blanks("/-" + PrintBody(inner) + "-/" + PrintBody(rest) + "-/")
         + ScrubFrom(tail, if d == 1 then Code else Comment(d - 1))
    decreases Nested(inner, rest), 0
  {
    hide ScrubFrom, Blanks;
    var x, y := PrintBody(inner) + "-/", PrintBody(rest) + "-/";
    assert "/-" + PrintBody(inner) + "-/" + PrintBody(rest) + "-/" + tail == ['/', '-'] + (x + (y + tail));
    TwoMore('/', '-', x + (y + tail), Comment(d));
    assert x + (y + tail) == PrintBody(inner) + "-/" + (y + tail);
    BodyScrubs(inner, d + 1, y + tail);
    BodyScrubs(rest, d, tail);
    assert "/-" + PrintBody(inner) + "-/" + PrintBody(rest) + "-/" == ['/', '-'] + (x + y);
    BlanksJoin(['/', '-'], x + y);
    BlanksJoin(x, y);
  }

  lemma {:induction false} CharsScrub(cs: seq<StringChar>, tail: string)
    requires CharsOk(cs)
    ensures ScrubFrom(PrintChars(cs) + "\"" + tail, StringLit)
      == Blanks(PrintChars(cs) + "\"") + ScrubFrom(tail, Code)
    decreases |cs|
  {
    hide ScrubFrom, Blanks;
    if cs == [] {
      assert "" + "\"" + tail == ['"'] + tail && "" + "\"" == ['"'];
      OneMore('"', tail, StringLit);
      BlankOne('"');
    } else {
      var more := PrintChars(cs[1..]) + "\"" + tail;
      var end := PrintChars(cs[1..]) + "\"";
      CharsScrub(cs[1..], tail);
      match cs[0] {
        case Raw(c) =>
          assert cs[0].c == c;
          assert PrintChars(cs) + "\"" + tail == [c] + more && PrintChars(cs) + "\"" == [c] + end;
          OneMore(c, more, StringLit);
          BlankOne(c);
          BlanksJoin([c], end);
        case Escaped(c) =>
          assert PrintChars(cs) + "\"" + tail == ['\\', c] + more && PrintChars(cs) + "\"" == ['\\', c] + end;
          TwoMore('\\', c, more, StringLit);
          BlanksJoin(['\\', c], end);
      }
    }
  }

  /** A line comment up to the newline or the end of the text. */
  lemma {:induction false} LineScrubs(text: string, tail: string)
    requires '\n' !in text && (tail == "" || tail[0] == '\n')
    ensures ScrubFrom(text + tail, LineComment) == Blanks(text) + ScrubFrom(tail, Code)
  {
    hide ScrubFrom, Blanks;
    if text == "" {
      assert text + tail == tail && |Blanks("")| == 0;
      LineEndsHere(tail);
    } else {
      assert text[0] in text;
      assert text + tail == [text[0]] + (text[1..] + tail) && text == [text[0]] + text[1..];
      OneMore(text[0], text[1..] + tail, LineComment);
      LineScrubs(text[1..], tail);
      BlankOne(text[0]);
      BlanksJoin([text[0]], text[1..]);
    }
  }

  lemma LineEndsHere(tail: string)
    requires tail == "" || tail[0] == '\n'
    ensures ScrubFrom(tail, LineComment) == ScrubFrom(tail, Code)
  {
  }

  // ---------- whole texts ----------

  lemma {:induction false} LineStops(rest: Tokens)
    requires rest.Done? || (rest.CodeThen? && rest.c == '\n')
    ensures Print(rest) == "" || Print(rest)[0] == '\n'
  {
  }

  lemma StringScrubs(chars: seq<StringChar>, tail: string)
    requires CharsOk(chars)
    ensures ScrubFrom("\"" + PrintChars(chars) + "\"" + tail, Code)
      == Blanks("\"" + PrintChars(chars) + "\"") + ScrubFrom(tail, Code)
  {
    hide ScrubFrom, Blanks;
    var body := PrintChars(chars) + "\"";
    assert "\"" + PrintChars(chars) + "\"" + tail == ['"'] + (body + tail);
    assert "\"" + PrintChars(chars) + "\"" == ['"'] + body;
    OneMore('"', body + tail, Code);
    CharsScrub(chars, tail);
    BlankOne('"');
    BlanksJoin(['"'], body);
  }

  lemma BlockScrubs(b: Body, tail: string)
    requires BodyOk(b)
    ensures ScrubFrom("/-" + PrintBody(b) + "-/" + tail, Code)
      == Blanks("/-" + PrintBody(b) + "-/") + ScrubFrom(tail, Code)
  {
    hide ScrubFrom, Blanks;
    var body := PrintBody(b) + "-/";
    assert "/-" + PrintBody(b) + "-/" + tail == ['/', '-'] + (body + tail);
    assert "/-" + PrintBody(b) + "-/" == ['/', '-'] + body;
    TwoMore('/', '-', body + tail, Code);
    BodyScrubs(b, 1, tail);
    BlanksJoin(['/', '-'], body);
  }

  lemma CommentScrubs(text: string, tail: string)
    requires '\n' !in text && (tail == "" || tail[0] == '\n')
    ensures ScrubFrom("--" + text + tail, Code) == Blanks("--" + text) + ScrubFrom(tail, Code)
  {
    hide ScrubFrom, Blanks;
    assert "--" + text + tail == ['-', '-'] + (text + tail) && "--" + text == ['-', '-'] + text;
    TwoMore('-', '-', text + tail, Code);
    LineScrubs(text, tail);
    BlanksJoin(['-', '-'], text);
  }

  /** Scrubbing a printed text keeps its code where it is and blanks its strings and comments, nested ones and
      escapes included. */
  lemma {:induction false} ScrubInvertsPrint(t: Tokens)
    requires TokensOk(t)
    ensures ScrubFrom(Print(t), Code) == Scrubbed(t)
    decreases t
  {
    assert ScrubFrom("", Code) == "";
    hide ScrubFrom, Blanks, PrintBody, PrintChars, BodyOk, CharsOk;
    match t {
      case Done =>
      case CodeThen(c, rest) =>
        ScrubInvertsPrint(rest);
        OneMore(c, Print(rest), Code);
      case StringThen(chars, rest) =>
        ScrubInvertsPrint(rest);
        StringScrubs(chars, Print(rest));
      case BlockThen(b, rest) =>
        ScrubInvertsPrint(rest);
        BlockScrubs(b, Print(rest));
      case LineThen(text, rest) =>
        ScrubInvertsPrint(rest);
        LineStops(rest);
        CommentScrubs(text, Print(rest));
    }
  }

  // ---------- the second lexer ----------

  /** The code alone, with string literals taken for code. */
  function Stripped(t: Tokens): string {
    match t
    case Done => ""
    case CodeThen(c, rest) => [c] + Stripped(rest)
    case StringThen(chars, rest) => "\"" + PrintChars(chars) + "\"" + Stripped(rest)
    case BlockThen(_, rest) => Stripped(rest)
    case LineThen(_, rest) => Stripped(rest)
  }

  predicate NoStrings(t: Tokens) {
    match t
    case Done => true
    case CodeThen(_, rest) => NoStrings(rest)
    case StringThen(_, _) => false
    case BlockThen(_, rest) => NoStrings(rest)
    case LineThen(_, rest) => NoStrings(rest)
  }

  lemma StripPair(a: char, b: char, rest: string, depth: nat)
    requires (a == '/' && b == '-') || (depth > 0 && a == '-' && b == '/')
    ensures StripComments([a, b] + rest, depth) == StripComments(rest, if a == '/' then depth + 1 else depth - 1)
  {
    var s := [a, b] + rest;
    assert Peek(s) == Some(b) && s[2..] == rest;
  }

  lemma StripInside(c: char, rest: string, depth: nat)
    requires depth > 0 && rest != "" && !(c == '/' && rest[0] == '-') && !(c == '-' && rest[0] == '/')
    ensures StripComments([c] + rest, depth) == StripComments(rest, depth)
  {
    assert ([c] + rest)[1..] == rest;
  }

  lemma {:induction false} BodyStrips(b: Body, depth: nat, tail: string)
    requires BodyOk(b) && depth > 0
    ensures StripComments(PrintBody(b) + "-/" + tail, depth) == StripComments(tail, depth - 1)
    decreases b
  {
    hide StripComments;
    match b {
      case End =>
        assert "" + "-/" + tail == ['-', '/'] + tail;
        StripPair('-', '/', tail, depth);
      case Char(c, rest) =>
        var more := PrintBody(rest) + "-/" + tail;
        assert [c] + PrintBody(rest) + "-/" + tail == [c] + more;
        assert more[0] == (PrintBody(rest) + "-/")[0];
        StripInside(c, more, depth);
        BodyStrips(rest, depth, tail);
      case Nested(inner, rest) =>
        var more := PrintBody(rest) + "-/" + tail;
        assert "/-" + PrintBody(inner) + "-/" + PrintBody(rest) + "-/" + tail
          == ['/', '-'] + (PrintBody(inner) + "-/" + more);
        StripPair('/', '-', PrintBody(inner) + "-/" + more, depth);
        BodyStrips(inner, depth + 1, more);
        BodyStrips(rest, depth, tail);
    }
  }

  lemma {:induction false} NewlineFound(text: string, tail: string)
    requires '\n' !in text && (tail == "" || tail[0] == '\n')
    ensures FindNewline(text + tail) == |text|
  {
    if text == "" {
      assert text + tail == tail;
    } else {
      assert text[0] in text;
      assert (text + tail)[1..] == text[1..] + tail;
      NewlineFound(text[1..], tail);
    }
  }

  lemma StripLine(text: string, tail: string)
    requires '\n' !in text && (tail == "" || tail[0] == '\n')
    ensures StripComments("--" + text + tail, 0) == StripComments(tail, 0)
  {
    var s := "--" + text + tail;
    assert '\n' !in "--" + text;
    NewlineFound("--" + text, tail);
    assert s[0] == '-' && Peek(s) == Some('-');
    assert s[|"--" + text|..] == tail;
  }

  lemma StripCode(c: char, rest: string)
    requires c == '/' || c == '-' ==> rest == "" || rest[0] != '-'
    ensures StripComments([c] + rest, 0) == [c] + StripComments(rest, 0)
  {
    assert ([c] + rest)[1..] == rest;
  }

  /** Stripping a printed text without string literals leaves exactly its code. */
  lemma {:induction false} StripInvertsPrint(t: Tokens)
    requires TokensOk(t) && NoStrings(t)
    ensures StripComments(Print(t), 0) == Stripped(t)
    decreases t
  {
    assert StripComments("", 0) == "";
    hide StripComments;
    match t {
      case Done =>
      case CodeThen(c, rest) =>
        StripCode(c, Print(rest));
        StripInvertsPrint(rest);
      case BlockThen(b, rest) =>
        assert Print(t) == ['/', '-'] + (PrintBody(b) + "-/" + Print(rest));
        StripPair('/', '-', PrintBody(b) + "-/" + Print(rest), 0);
        BodyStrips(b, 1, Print(rest));
        StripInvertsPrint(rest);
      case LineThen(text, rest) =>
        LineStops(rest);
        StripLine(text, Print(rest));
        StripInvertsPrint(rest);
    }
  }
}
