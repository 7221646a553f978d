/** The two hand-written Lean comment lexers: one blanks comments and strings in place, the
    other deletes comments.  `Mask` says which characters are code; it is the reference both
    of them are measured against. */
module LeanLexer {
  import opened Text

  datatype Mode = Code | Comment(depth: nat) | StringLit | LineComment

  /** One lexer step: how many characters it eats, whether they are code, where it leads. */
  datatype Token = Token(width: nat, code: bool, next: Mode)

  /** The character after the first one, if there is one. */
  function Peek(s: string): Option<char> {
    if |s| > 1 then Some(s[1]) else None
  }

  function NextToken(c: char, next: Option<char>, m: Mode): (t: Token)
    ensures 1 <= t.width <= 2 && (t.width == 2 ==> next.Some?)
    ensures t.code ==> t.width == 1
  {
    match m
    case Comment(d) =>
      if c == '/' && next == Some('-') then Token(2, false, Comment(d + 1))
      else if c == '-' && next == Some('/') then Token(2, false, if d <= 1 then Code else Comment(d - 1))
      else Token(1, false, m)
    case StringLit =>
      if c == '\\' && next.Some? then Token(2, false, StringLit)
      else Token(1, false, if c == '"' then Code else StringLit)
    case LineComment =>
      if c == '\n' then Token(1, true, Code) else Token(1, false, LineComment)
    case Code =>
      if c == '/' && next == Some('-') then Token(2, false, Comment(1))
      else if c == '-' && next == Some('-') then Token(2, false, LineComment)
      else if c == '"' then Token(1, false, StringLit)
      else Token(1, true, Code)
  }

  function Blank1(c: char, code: bool): char {
    if code || c == '\n' then c else ' '
  }

  /** The text of one token as the scrubber writes it. */
  function BlankToken(s: string, t: Token): (r: string)
    requires t.width <= |s| && 1 <= t.width <= 2
    ensures |r| == t.width
  {
    if t.width == 1 then [Blank1(s[0], t.code)] else [Blank1(s[0], t.code), Blank1(s[1], t.code)]
  }

  /** The scrubbed text, token by token. */
  function ScrubFrom(s: string, m: Mode): (r: string)
    ensures |r| == |s|
  {
    if s == "" then "" else
      var t := NextToken(s[0], Peek(s), m);
      BlankToken(s, t) + ScrubFrom(s[t.width..], t.next)
  }

  function Scrub(code: string): string {
    ScrubFrom(code, Code)
  }

  function Flags(t: Token): (r: seq<bool>)
    requires 1 <= t.width <= 2
    ensures |r| == t.width
  {
    if t.width == 1 then [t.code] else [t.code, t.code]
  }

  /** Which characters lie outside comments and strings. */
  function Mask(s: string, m: Mode): (r: seq<bool>)
    ensures |r| == |s|
  {
    if s == "" then [] else
      var t := NextToken(s[0], Peek(s), m);
      Flags(t) + Mask(s[t.width..], t.next)
  }

  function ModeAfter(s: string, m: Mode): Mode
    decreases |s|
  {
    if s == "" then m else
      var t := NextToken(s[0], Peek(s), m);
      ModeAfter(s[t.width..], t.next)
  }

  /** The characters the mask calls code. */
  function Kept(s: string, mask: seq<bool>): string
    requires |mask| == |s|
  {
    if s == "" then ""
    else if mask[0] then [s[0]] + Kept(s[1..], mask[1..])
    else Kept(s[1..], mask[1..])
  }

  // ---------- scrub_lean_source ----------

  function ModeOf(blockDepth: nat, inString: bool): Mode {
    if blockDepth > 0 then Comment(blockDepth) else if inString then StringLit else Code
  }

  /** What has been written, followed by what scrubbing the rest would write, is the result. */
  ghost predicate OnTrack(code: string, index: nat, m: Mode, out: string) {
    index <= |code| && out + ScrubFrom(code[index..], m) == Scrub(code)
  }

  function PeekAt(code: string, index: nat): Option<char> {
    if index + 1 < |code| then Some(code[index + 1]) else None
  }

  lemma Advance(code: string, index: nat, m: Mode, out: string) returns (t: Token)
    requires index < |code| && OnTrack(code, index, m, out)
    ensures t == NextToken(code[index], PeekAt(code, index), m) && index + t.width <= |code|
    ensures t.width == 1 ==> OnTrack(code, index + 1, t.next, out + [Blank1(code[index], t.code)])
    ensures t.width == 2 ==> OnTrack(code, index + 2, t.next, out + [' ', Blank1(code[index + 1], false)])
  {
    var s := code[index..];
    t := NextToken(s[0], Peek(s), m);
    assert s[t.width..] == code[index + t.width..];
    Assoc(out, BlankToken(s, t), ScrubFrom(s[t.width..], t.next));
  }

  lemma InComment(code: string, index: nat, d: nat, out: string)
    requires index < |code| && d > 0 && OnTrack(code, index, Comment(d), out)
    ensures var c, next := code[index], PeekAt(code, index);
      if c == '/' && next == Some('-') then OnTrack(code, index + 2, Comment(d + 1), out + [' ', ' '])
      else if c == '-' && next == Some('/') then OnTrack(code, index + 2, ModeOf(d - 1, false), out + [' ', ' '])
      else OnTrack(code, index + 1, Comment(d), out + [Blank1(c, false)])
  {
    var t := Advance(code, index, Comment(d), out);
  }

  lemma InString(code: string, index: nat, out: string)
    requires index < |code| && OnTrack(code, index, StringLit, out)
    ensures var c, next := code[index], PeekAt(code, index);
      if c == '\\' && next.Some? then OnTrack(code, index + 2, StringLit, out + [' ', Blank1(next.value, false)])
      else if c == '"' then OnTrack(code, index + 1, Code, out + [' '])
      else OnTrack(code, index + 1, StringLit, out + [Blank1(c, false)])
  {
    var t := Advance(code, index, StringLit, out);
  }

  lemma InCode(code: string, index: nat, out: string)
    requires index < |code| && OnTrack(code, index, Code, out)
    ensures var c, next := code[index], PeekAt(code, index);
      if c == '/' && next == Some('-') then OnTrack(code, index + 2, Comment(1), out + [' ', ' '])
      else if c == '-' && next == Some('-') then OnTrack(code, index + 2, LineComment, out + [' ', ' '])
      else if c == '"' then OnTrack(code, index + 1, StringLit, out + [' '])
      else OnTrack(code, index + 1, Code, out + [c])
  {
    var t := Advance(code, index, Code, out);
  }

  lemma InLineComment(code: string, index: nat, out: string)
    requires index < |code| && code[index] != '\n' && OnTrack(code, index, LineComment, out)
    ensures OnTrack(code, index + 1, LineComment, out + [' '])
  {
    var t := Advance(code, index, LineComment, out);
  }

  lemma OnTrackBounds(code: string, index: nat, m: Mode, out: string)
    requires OnTrack(code, index, m, out)
    ensures index <= |code| && (index == |code| ==> out == Scrub(code))
  {
  }

  lemma LineEnds(code: string, index: nat, out: string)
    requires OnTrack(code, index, LineComment, out) && (index < |code| ==> code[index] == '\n')
    ensures OnTrack(code, index, Code, out)
  {
    if index < |code| {
      var s := code[index..];
      assert NextToken(s[0], Peek(s), LineComment) == NextToken(s[0], Peek(s), Code);
    }
  }

  /** Blanks up to the end of the line. */
  method BlankLine(code: string, start: nat, written: string) returns (out: string, index: nat)
    requires OnTrack(code, start, LineComment, written)
    ensures OnTrack(code, index, Code, out) && index >= start
  {
    out, index := written, start;
    hide OnTrack;
    while index < |code| && code[index] != '\n'
      invariant OnTrack(code, index, LineComment, out) && index >= start
    {
      InLineComment(code, index, out);
      out := out + [' '];
      index := index + 1;
    }
    LineEnds(code, index, out);
  }

  /** The scrubber's own loop. */
  method ScrubLeanSource(code: string) returns (out: string)
    ensures out == Scrub(code)
  {
    out := "";
    var index: nat, blockDepth: nat, inString := 0, 0, false;
    assert OnTrack(code, 0, Code, out) by { assert code[0..] == code; }
    hide OnTrack, ScrubFrom, Scrub;
    while index < |code|
      invariant blockDepth > 0 ==> !inString
      invariant OnTrack(code, index, ModeOf(blockDepth, inString), out)
      decreases |code| - index
    {
      var current, next := code[index], PeekAt(code, index);
      if blockDepth > 0 {
        InComment(code, index, blockDepth, out);
        if current == '/' && next == Some('-') {
          blockDepth := blockDepth + 1;
          out := out + [' ', ' '];
          index := index + 2;
        } else if current == '-' && next == Some('/') {
          blockDepth := blockDepth - 1;
          out := out + [' ', ' '];
          index := index + 2;
        } else {
          out := out + [if current == '\n' then '\n' else ' '];
          index := index + 1;
        }
      } else if inString {
        InString(code, index, out);
        if current == '\\' && next.Some? {
          out := out + [' ', if next == Some('\n') then '\n' else ' '];
          index := index + 2;
        } else if current == '"' {
          inString := false;
          out := out + [' '];
          index := index + 1;
        } else {
          out := out + [if current == '\n' then '\n' else ' '];
          index := index + 1;
        }
      } else {
        InCode(code, index, out);
        if current == '/' && next == Some('-') {
          blockDepth := 1;
          out := out + [' ', ' '];
          index := index + 2;
        } else if current == '-' && next == Some('-') {
          out := out + [' ', ' '];
          index := index + 2;
          out, index := BlankLine(code, index, out);
        } else if current == '"' {
          inString := true;
          out := out + [' '];
          index := index + 1;
        } else {
          out := out + [current];
          index := index + 1;
        }
      }
    }
    OnTrackBounds(code, index, ModeOf(blockDepth, inString), out);
  }

  /** Length and every newline survive; every other character is unchanged when the mask calls
      it code and a space otherwise. */
  lemma {:induction false} ScrubKeepsPositions(s: string, m: Mode)
    ensures forall i :: 0 <= i < |s| ==>
      ScrubFrom(s, m)[i] == (if Mask(s, m)[i] || s[i] == '\n' then s[i] else ' ')
    decreases |s|
  {
    if s != "" {
      var t := NextToken(s[0], Peek(s), m);
      var rest := s[t.width..];
      ScrubKeepsPositions(rest, t.next);
      var head, tail := BlankToken(s, t), ScrubFrom(rest, t.next);
      var flags, mask := Flags(t), Mask(rest, t.next);
      assert ScrubFrom(s, m) == head + tail && Mask(s, m) == flags + mask;
      hide ScrubFrom, Mask, NextToken;
      forall i | 0 <= i < |s|
        ensures (head + tail)[i] == Blank1(s[i], (flags + mask)[i])
      {
        if i >= t.width {
          assert s[i] == rest[i - t.width];
        }
      }
    }
  }

  // ---------- nothing left to scrub ----------

  predicate OpensComment(a: char, b: char) {
    (a == '/' && b == '-') || (a == '-' && b == '-')
  }

  /** No quote and no comment opener. */
  predicate Plain(s: string) {
    forall i :: 0 <= i < |s| ==> s[i] != '"' && (i + 1 < |s| ==> !OpensComment(s[i], s[i + 1]))
  }

  lemma {:induction false} ScrubbedIsPlain(s: string, m: Mode)
    ensures Plain(ScrubFrom(s, m))
    decreases |s|
  {
    if s != "" {
      var t := NextToken(s[0], Peek(s), m);
      var rest := s[t.width..];
      ScrubbedIsPlain(rest, t.next);
    }
  }

  lemma PlainStep(s: string)
    requires Plain(s) && s != ""
    ensures NextToken(s[0], Peek(s), Code) == Token(1, true, Code)
    ensures Plain(s[1..]) && s == [s[0]] + s[1..]
  {
    assert s[0] != '"' && (|s| > 1 ==> !OpensComment(s[0], s[0 + 1]));
    forall i | 0 <= i < |s[1..]|
      ensures s[1..][i] != '"' && (i + 1 < |s[1..]| ==> !OpensComment(s[1..][i], s[1..][i + 1]))
    {
      assert s[1..][i] == s[i + 1] && (i + 1 < |s[1..]| ==> s[1..][i + 1] == s[i + 2]);
    }
  }

  lemma {:induction false} PlainIsFixed(s: string)
    requires Plain(s)
    ensures ScrubFrom(s, Code) == s
  {
    if s != "" {
      PlainStep(s);
      PlainIsFixed(s[1..]);
    }
  }

  /** Scrubbed text has no opener and no quote left, so scrubbing twice is scrubbing once. */
  lemma ScrubIdempotent(code: string)
    ensures Plain(Scrub(code)) && Scrub(Scrub(code)) == Scrub(code)
  {
    ScrubbedIsPlain(code, Code);
    PlainIsFixed(Scrub(code));
  }

  // ---------- _strip_lean_comments ----------

  /** The index of the first newline, or the length. */
  function FindNewline(s: string): (i: nat)
    ensures i <= |s|
    ensures i < |s| ==> s[i] == '\n'
    ensures forall k :: 0 <= k < i ==> s[k] != '\n'
  {
    if s == "" || s[0] == '\n' then 0 else 1 + FindNewline(s[1..])
  }

  function StripComments(s: string, depth: nat): string
    decreases |s|
  {
    if s == "" then "" else
      var next := Peek(s);
      if depth > 0 then
        if s[0] == '/' && next == Some('-') then StripComments(s[2..], depth + 1)
        else if s[0] == '-' && next == Some('/') then StripComments(s[2..], depth - 1)
        else StripComments(s[1..], depth)
      else if s[0] == '/' && next == Some('-') then StripComments(s[2..], 1)
      else if s[0] == '-' && next == Some('-') then StripComments(s[FindNewline(s)..], 0)
      else [s[0]] + StripComments(s[1..], 0)
  }

  /** The stripper's own loop. */
  method StripLeanComments(text: string) returns (out: string)
    ensures out == StripComments(text, 0)
  {
    out := "";
    var i, n, depth := 0, |text|, 0;
    assert text[0..] == text;
    while i < n
      invariant 0 <= i <= n == |text|
      invariant out + StripComments(text[i..], depth) == StripComments(text, 0)
      decreases n - i
    {
      var next := PeekAt(text, i);
      ghost var s := text[i..];
      assert s[1..] == text[i + 1..] && (next.Some? ==> s[2..] == text[i + 2..]);
      if depth > 0 {
        if text[i] == '/' && next == Some('-') {
          depth := depth + 1;
          i := i + 2;
        } else if text[i] == '-' && next == Some('/') {
          depth := depth - 1;
          i := i + 2;
        } else {
          i := i + 1;
        }
        continue;
      }
      if text[i] == '/' && next == Some('-') {
        depth := depth + 1;
        i := i + 2;
      } else if text[i] == '-' && next == Some('-') {
        var nl := i + FindNewline(text[i..]);
        assert s[nl - i..] == text[nl..];
        if nl == n {
          break;
        }
        i := nl;
      } else {
        assert out + ([text[i]] + StripComments(text[i + 1..], 0)) == out + [text[i]] + StripComments(text[i + 1..], 0);
        out := out + [text[i]];
        i := i + 1;
      }
    }
  }

  // ---------- the two lexers agree ----------

  /** What the comment stripper returns when the scrubber is in mode `m`. */
  function StripAt(s: string, m: Mode): string {
    match m
    case Comment(d) => StripComments(s, d)
    case LineComment => StripComments(s[FindNewline(s)..], 0)
    case _ => StripComments(s, 0)
  }

  lemma KeptStep(s: string, t: Token, mask: seq<bool>)
    requires 1 <= t.width <= 2 && t.width <= |s| && |mask| == |s| - t.width
    requires t.code ==> t.width == 1
    ensures Kept(s, Flags(t) + mask) == (if t.code then [s[0]] else "") + Kept(s[t.width..], mask)
  {
    var full := Flags(t) + mask;
    if t.width == 1 {
      assert full[1..] == mask;
    } else {
      assert full[1..][1..] == mask;
      assert s[1..][1..] == s[2..];
    }
  }

  lemma LineSkip(s: string, k: nat)
    requires k <= FindNewline(s)
    ensures s[k..][FindNewline(s[k..])..] == s[FindNewline(s)..]
  {
    assert forall j :: 0 <= j < |s| - k ==> s[k..][j] == s[k + j];
  }

  lemma StripStepComment(s: string, d: nat)
    requires s != "" && d > 0
    ensures var t := NextToken(s[0], Peek(s), Comment(d));
      !t.code && StripComments(s, d) == StripAt(s[t.width..], t.next)
  {
  }

  lemma StripStepLine(s: string)
    requires s != ""
    ensures var t := NextToken(s[0], Peek(s), LineComment);
      StripAt(s, LineComment) == (if t.code then [s[0]] else "") + StripAt(s[t.width..], t.next)
  {
    hide StripComments;
    if s[0] == '\n' {
      assert s[0..] == s;
      StripPlainChar(s);
    } else {
      LineSkip(s, 1);
    }
  }

  lemma StripPlainChar(s: string)
    requires s != "" && s[0] != '/' && s[0] != '-'
    ensures StripComments(s, 0) == [s[0]] + StripComments(s[1..], 0)
  {
  }

  lemma StripStepCode(s: string)
    requires s != "" && s[0] != '"'
    ensures var t := NextToken(s[0], Peek(s), Code);
      StripComments(s, 0) == (if t.code then [s[0]] else "") + StripAt(s[t.width..], t.next)
  {
    if s[0] == '-' && Peek(s) == Some('-') {
      LineSkip(s, 2);
    }
  }

  /** One token of the scrubber, as the stripper sees it. */
  lemma StripStep(s: string, m: Mode)
    requires s != "" && m != StringLit && (m.Comment? ==> m.depth > 0)
    requires !(m.Code? && s[0] == '"')
    ensures var t := NextToken(s[0], Peek(s), m);
      && t.next != StringLit && (t.next.Comment? ==> t.next.depth > 0)
      && StripAt(s, m) == (if t.code then [s[0]] else "") + StripAt(s[t.width..], t.next)
  {
    hide StripComments;
    match m {
      case Comment(d) => StripStepComment(s, d);
      case LineComment => StripStepLine(s);
      case Code => StripStepCode(s);
    }
  }

  lemma QuoteShows(s: string, m: Mode)
    requires s != "" && m.Code? && s[0] == '"'
    ensures '"' in StripAt(s, m)
  {
    assert StripAt(s, m)[0] == '"';
  }

  /** Some quote stands where the lexer is outside comments and strings. */
  predicate QuoteInCode(s: string, m: Mode)
    decreases |s|
  {
    s != "" && ((m.Code? && s[0] == '"') ||
      (var t := NextToken(s[0], Peek(s), m); QuoteInCode(s[t.width..], t.next)))
  }

  lemma {:induction false} LexersAgree(s: string, m: Mode)
    requires m != StringLit && (m.Comment? ==> m.depth > 0)
    requires !QuoteInCode(s, m)
    ensures Kept(s, Mask(s, m)) == StripAt(s, m)
    decreases |s|
  {
    if s != "" {
      var t := NextToken(s[0], Peek(s), m);
      StripStep(s, m);
      KeptStep(s, t, Mask(s[t.width..], t.next));
      LexersAgree(s[t.width..], t.next);
    }
  }

  /** The stripper keeps the first quote the scrubber meets in code. */
  lemma {:induction false} CodeQuoteStays(s: string, m: Mode)
    requires m != StringLit && (m.Comment? ==> m.depth > 0)
    requires QuoteInCode(s, m)
    ensures '"' in StripAt(s, m)
    decreases |s|
  {
    if m.Code? && s[0] == '"' {
      QuoteShows(s, m);
    } else {
      var t := NextToken(s[0], Peek(s), m);
      StripStep(s, m);
      CodeQuoteStays(s[t.width..], t.next);
    }
  }

  lemma {:induction false} NoQuoteKept(s: string, m: Mode)
    ensures '"' !in Kept(s, Mask(s, m))
    decreases |s|
  {
    if s != "" {
      var t := NextToken(s[0], Peek(s), m);
      KeptStep(s, t, Mask(s[t.width..], t.next));
      NoQuoteKept(s[t.width..], t.next);
    }
  }

  /** Deleting comments gives exactly the characters the scrubber left as code, precisely when no quote
      stands in code; a text with one there keeps a quote when its comments are deleted. */
  lemma StripIsKeptIffNoQuote(code: string)
    ensures StripComments(code, 0) == Kept(code, Mask(code, Code)) <==> !QuoteInCode(code, Code)
    ensures QuoteInCode(code, Code) <==> '"' in StripComments(code, 0)
  {
    NoQuoteKept(code, Code);
    if QuoteInCode(code, Code) {
      CodeQuoteStays(code, Code);
    } else {
      LexersAgree(code, Code);
    }
  }

  // ---------- lexing in pieces ----------

  lemma FirstTokenConcat(a: string, b: string, m: Mode) returns (t: Token)
    requires a != "" && Last(a) == '\n'
    ensures t == NextToken(a[0], Peek(a), m) == NextToken((a + b)[0], Peek(a + b), m)
    ensures t.width <= |a| && (a + b)[t.width..] == a[t.width..] + b
    ensures BlankToken(a + b, t) == BlankToken(a, t)
    ensures a[t.width..] == "" || Last(a[t.width..]) == '\n'
  {
    t := NextToken(a[0], Peek(a), m);
  }

  /** A cut after a newline splits no token. */
  lemma {:induction false} ScrubConcat(a: string, b: string, m: Mode)
    requires a == "" || Last(a) == '\n'
    ensures ScrubFrom(a + b, m) == ScrubFrom(a, m) + ScrubFrom(b, ModeAfter(a, m))
    ensures ModeAfter(a + b, m) == ModeAfter(b, ModeAfter(a, m))
    decreases |a|
  {
    if a == "" {
      assert a + b == b;
    } else {
      var t := FirstTokenConcat(a, b, m);
      var head, rest := BlankToken(a, t), a[t.width..];
      ScrubConcat(rest, b, t.next);
      var r, r' := ScrubFrom(rest, t.next), ScrubFrom(b, ModeAfter(rest, t.next));
      Assoc(head, r, r');
    }
  }

  lemma ScrubNewline(m: Mode)
    ensures ScrubFrom("\n", m) == "\n"
  {
    var t := NextToken('\n', None, m);
    assert ScrubFrom("\n"[1..], t.next) == "";
  }

  lemma ScrubShort(a: string, m: Mode)
    requires |a| <= 1
    ensures ScrubFrom(a + "\n", m) == ScrubFrom(a, m) + "\n"
  {
    if a == "" {
      ScrubNewline(m);
      assert a + "\n" == "\n";
    } else {
      var s := a + "\n";
      var t, t' := NextToken(a[0], None, m), NextToken(a[0], Some('\n'), m);
      assert ScrubFrom(a, m) == [Blank1(a[0], t.code)] by {
        assert ScrubFrom(a[1..], t.next) == "";
      }
      if t'.width == 1 {
        assert s[1..] == "\n";
        ScrubNewline(t.next);
      } else {
        assert ScrubFrom(s[2..], t'.next) == "";
      }
    }
  }

  /** Looking ahead to a newline changes nothing before it. */
  lemma {:induction false} ScrubBeforeNewline(a: string, m: Mode)
    ensures ScrubFrom(a + "\n", m) == ScrubFrom(a, m) + "\n"
    decreases |a|
  {
    var s := a + "\n";
    if |a| <= 1 {
      ScrubShort(a, m);
    } else {
      var t := NextToken(a[0], Peek(a), m);
      var rest := a[t.width..];
      assert s[t.width..] == rest + "\n";
      ScrubBeforeNewline(rest, t.next);
      Assoc(BlankToken(a, t), ScrubFrom(rest, t.next), "\n");
    }
  }

  /** A text cut at a newline scrubs side by side, the right side in the mode the left one leaves. */
  lemma ScrubCut(a: string, b: string, m: Mode)
    ensures ScrubFrom(a + "\n" + b, m) == ScrubFrom(a, m) + "\n" + ScrubFrom(b, ModeAfter(a + "\n", m))
  {
    ScrubConcat(a + "\n", b, m);
    ScrubBeforeNewline(a, m);
  }

  // ---------- the mode a line begins in shows ----------

  /** A mode in which a line can begin. */
  predicate LineStart(m: Mode) {
    m != LineComment && (m.Comment? ==> m.depth > 0)
  }

  lemma {:induction false} ModeAfterLine(s: string, m: Mode)
    requires s != "" && Last(s) == '\n' && (m.Comment? ==> m.depth > 0)
    ensures LineStart(ModeAfter(s, m))
    decreases |s|
  {
    var t := NextToken(s[0], Peek(s), m);
    var rest := s[t.width..];
    if rest != "" {
      ModeAfterLine(rest, t.next);
    }
  }

  ghost predicate Spaces(s: string) {
    forall i :: 0 <= i < |s| ==> s[i] == ' '
  }

  lemma {:induction false} LineCommentBlanks(s: string)
    requires '\n' !in s
    ensures Spaces(ScrubFrom(s, LineComment))
  {
    if s != "" {
      LineCommentBlanks(s[1..]);
      assert s[0] in s;
    }
  }

  /** One token cut off the front. */
  lemma ScrubStep(s: string, m: Mode) returns (t: Token)
    requires s != "" && '\n' !in s
    ensures t == NextToken(s[0], Peek(s), m) && t.width <= |s|
    ensures ScrubFrom(s, m)[t.width..] == ScrubFrom(s[t.width..], t.next)
    ensures if t.code then ScrubFrom(s, m)[0] == s[0]
      else ScrubFrom(s, m)[0] == ' ' && Spaces(ScrubFrom(s, m)[..t.width])
    ensures '\n' !in s[t.width..]
  {
    t := NextToken(s[0], Peek(s), m);
    assert s[0] in s && (t.width == 2 ==> s[1] in s);
  }

  lemma SpacesJoin(s: string, k: nat)
    requires k <= |s| && Spaces(s[..k]) && Spaces(s[k..])
    ensures Spaces(s)
  {
    assert s == s[..k] + s[k..];
  }

  /** In a string literal, two characters that cannot close or escape are skipped one by one. */
  lemma StringSkips(s: string, k: nat)
    requires k <= 2 && k <= |s| && '\n' !in s && forall i :: 0 <= i < k ==> s[i] != '"' && s[i] != '\\'
    ensures ScrubFrom(s, StringLit)[k..] == ScrubFrom(s[k..], StringLit) && Spaces(ScrubFrom(s, StringLit)[..k])
  {
    if k > 0 {
      var t := ScrubStep(s, StringLit);
      if k == 2 {
        var t' := ScrubStep(s[1..], StringLit);
        assert s[1..][1..] == s[2..];
        assert ScrubFrom(s, StringLit)[2..] == ScrubFrom(s, StringLit)[1..][1..];
        assert ScrubFrom(s, StringLit)[1] == ScrubFrom(s, StringLit)[1..][0];
      }
    }
  }

  /** A comment delimiter, read in a comment or in code, against the same characters in a string. */
  lemma DelimiterAgainstString(s: string, a: Mode)
    requires s != "" && '\n' !in s && a != StringLit && LineStart(a) && NextToken(s[0], Peek(s), a).width == 2
    requires ScrubFrom(s, a) == ScrubFrom(s, StringLit)
    ensures ScrubFrom(s[2..], NextToken(s[0], Peek(s), a).next) == ScrubFrom(s[2..], StringLit)
    ensures Spaces(ScrubFrom(s, a)[..2])
  {
    var t := ScrubStep(s, a);
    StringSkips(s, 2);
  }

  lemma DropTwice(s: string, i: nat, j: nat)
    requires i + j <= |s|
    ensures s[i..][j..] == s[i + j..]
  {
  }

  /** Behind an escape in a string, a comment has read one character more, or two. */
  lemma EscapeAgainstComment(s: string, d: nat) returns (k: nat, m: Mode)
    requires |s| > 1 && '\n' !in s && d > 0 && s[0] == '\\'
    requires ScrubFrom(s, StringLit) == ScrubFrom(s, Comment(d))
    ensures 2 <= k <= |s| && m != StringLit && LineStart(m) && '\n' !in s[k..]
    ensures ScrubFrom(s[k..], StringLit) == ScrubFrom(s[k..], m) == ScrubFrom(s, StringLit)[k..]
    ensures Spaces(ScrubFrom(s, StringLit)[..k])
  {
    var out := ScrubFrom(s, StringLit);
    var e := ScrubStep(s, StringLit);
    var t := ScrubStep(s, Comment(d));
    var u := ScrubStep(s[1..], Comment(d));
    k, m := 1 + u.width, u.next;
    assert u.width == 2 ==> s[2] == '-' || s[2] == '/';
    hide ScrubFrom, NextToken;
    DropTwice(out, 1, u.width);
    DropTwice(s, 1, u.width);
    if k == 3 {
      StringSkips(s[2..], 1);
      DropTwice(s, 2, 1);
      DropTwice(out, 2, 1);
      assert out[..3] == out[..2] + out[2..][..1];
    }
  }

  lemma ReadsLineComment(s: string, m: Mode)
    requires s != "" && '\n' !in s && LineStart(m) && NextToken(s[0], Peek(s), m).next == LineComment
    ensures Spaces(ScrubFrom(s, m))
  {
    var t := ScrubStep(s, m);
    LineCommentBlanks(s[2..]);
    SpacesJoin(ScrubFrom(s, m), 2);
  }

  /** The tokens two modes read at one place: they lead to different modes, and only one can be code. */
  lemma TokensDiffer(c: char, next: Option<char>, a: Mode, b: Mode)
    requires a != b && LineStart(a) && LineStart(b) && c != '\n'
    ensures var t, u := NextToken(c, next, a), NextToken(c, next, b);
      && !(t.code && u.code)
      && (t.next != LineComment ==> LineStart(t.next)) && (u.next != LineComment ==> LineStart(u.next))
      && (t.width == u.width && t.next != LineComment ==> t.next != u.next)
      && (t.width != u.width && t.next != LineComment && u.next != LineComment ==>
            a == StringLit || b == StringLit || (c == '-' && (t.code || u.code)))
  {
  }

  /** Where two modes read tokens of one width and write the same, they write spaces. */
  lemma SameTokenBlank(s: string, a: Mode, b: Mode)
    requires s != "" && '\n' !in s && a != b && LineStart(a) && LineStart(b) && ScrubFrom(s, a) == ScrubFrom(s, b)
    requires NextToken(s[0], Peek(s), a).width == NextToken(s[0], Peek(s), b).width <= |s|
    ensures Spaces(ScrubFrom(s, a)[..NextToken(s[0], Peek(s), a).width])
  {
    var t := ScrubStep(s, a);
    var u := ScrubStep(s, b);
    assert s[0] in s;
    TokensDiffer(s[0], Peek(s), a, b);
    hide ScrubFrom, NextToken, LineStart, Peek, Spaces;
  }

  /** What code keeps, no other mode writes. */
  lemma KeptShows(s: string, a: Mode, b: Mode)
    requires s != "" && '\n' !in s && s[0] != ' ' && ScrubFrom(s, a) == ScrubFrom(s, b)
    ensures NextToken(s[0], Peek(s), a).code ==> NextToken(s[0], Peek(s), b).code
  {
    var t := ScrubStep(s, a);
    var u := ScrubStep(s, b);
    hide ScrubFrom, NextToken;
  }

  /** Two different modes at the start of a line show, unless the line is scrubbed to spaces. */
  lemma {:induction false} ModesShow(s: string, a: Mode, b: Mode)
    requires '\n' !in s && a != b && LineStart(a) && LineStart(b) && ScrubFrom(s, a) == ScrubFrom(s, b)
    ensures Spaces(ScrubFrom(s, a))
    decreases |s|, if a == StringLit then 1 else 2
  {
    if s != "" {
      var out := ScrubFrom(s, a);
      var t := ScrubStep(s, a);
      var u := ScrubStep(s, b);
      assert s[0] in s;
      TokensDiffer(s[0], Peek(s), a, b);
      assert LineStart(StringLit);
      hide ScrubFrom, Spaces, LineStart, NextToken, Peek;
      if t.next == LineComment {
        ReadsLineComment(s, a);
      } else if u.next == LineComment {
        ReadsLineComment(s, b);
      } else if t.width == u.width {
        SameTokenBlank(s, a, b);
        ModesShow(s[t.width..], t.next, u.next);
        SpacesJoin(out, t.width);
      } else if b == StringLit {
        ModesShow(s, b, a);
      } else if a == StringLit {
        StringShows(s, b);
      } else {
        KeptShows(s, a, b);
        KeptShows(s, b, a);
      }
    }
  }

  lemma {:induction false} StringShows(s: string, b: Mode)
    requires s != "" && '\n' !in s && b != StringLit && LineStart(b) && ScrubFrom(s, StringLit) == ScrubFrom(s, b)
    requires NextToken(s[0], Peek(s), StringLit).width != NextToken(s[0], Peek(s), b).width
    requires NextToken(s[0], Peek(s), b).next != LineComment
    ensures Spaces(ScrubFrom(s, StringLit))
    decreases |s|, 0
  {
    var out := ScrubFrom(s, StringLit);
    var u := NextToken(s[0], Peek(s), b);
    hide ScrubFrom, Spaces;
    if u.width == 2 {
      DelimiterAgainstString(s, b);
      ModesShow(s[2..], u.next, StringLit);
      SpacesJoin(out, 2);
    } else if b.Comment? {
      var k, m := EscapeAgainstComment(s, b.depth);
      hide NextToken;
      ModesShow(s[k..], StringLit, m);
      SpacesJoin(out, k);
    } else {
      KeptShows(s, b, StringLit);
    }
  }

  // ---------- contains_sorry_marker ----------

  predicate IsWord(c: char) {
    'a' <= c <= 'z' || 'A' <= c <= 'Z' || '0' <= c <= '9' || c == '_'
  }

  /** The word `w` stands at `i`, with word boundaries on both sides. */
  predicate WordAt(s: string, i: nat, w: string) {
    && i + |w| <= |s|
    && s[i..i + |w|] == w
    && (i == 0 || !IsWord(s[i - 1]))
    && (i + |w| == |s| || !IsWord(s[i + |w|]))
  }

  ghost predicate HasWord(s: string, w: string) {
    exists i: nat :: WordAt(s, i, w)
  }

  ghost predicate HasMarker(s: string) {
    HasWord(s, "sorry") || HasWord(s, "admit")
  }

  ghost predicate ContainsSorryMarker(code: string) {
    HasMarker(Scrub(code))
  }

  lemma WordAvoids(s: string, i: nat, w: string, p: nat)
    requires WordAt(s, i, w) && '\n' !in w && i <= p < i + |w|
    ensures s[p] != '\n'
  {
    assert w[p - i] == s[i..i + |w|][p - i] && w[p - i] in w;
  }

  /** Moving a word along when the text around it is the same. */
  lemma WordMoves(s: string, i: nat, w: string, r: string, j: nat)
    requires WordAt(s, i, w)
    requires j + |w| <= |r| && r[j..j + |w|] == s[i..i + |w|]
    requires j == 0 || r[j - 1] == '\n' || (i > 0 && r[j - 1] == s[i - 1])
    requires j + |w| == |r| || r[j + |w|] == '\n' || (i + |w| < |s| && r[j + |w|] == s[i + |w|])
    ensures HasWord(r, w)
  {
    assert WordAt(r, j, w);
  }

  lemma WordOnOneSide(a: string, b: string, w: string, i: nat)
    requires w != "" && '\n' !in w && WordAt(a + "\n" + b, i, w)
    ensures HasWord(a, w) || HasWord(b, w)
  {
    var s := a + "\n" + b;
    var k := |a| + 1;
    if i <= |a| < i + |w| {
      WordAvoids(s, i, w, |a|);
    } else if i < |a| {
      assert a[i..i + |w|] == s[i..i + |w|];
      WordMoves(s, i, w, a, i);
    } else {
      assert b[i - k..i - k + |w|] == s[i..i + |w|];
      WordMoves(s, i, w, b, i - k);
    }
  }

  lemma WordFromLeft(a: string, b: string, w: string)
    requires HasWord(a, w)
    ensures HasWord(a + "\n" + b, w)
  {
    var i: nat :| WordAt(a, i, w);
    var s := a + "\n" + b;
    assert s[i..i + |w|] == a[i..i + |w|];
    WordMoves(a, i, w, s, i);
  }

  lemma WordFromRight(a: string, b: string, w: string)
    requires HasWord(b, w)
    ensures HasWord(a + "\n" + b, w)
  {
    var i: nat :| WordAt(b, i, w);
    var s, k := a + "\n" + b, |a| + 1;
    assert s[k..] == b;
    assert s[i + k..i + k + |w|] == b[i..i + |w|];
    WordMoves(b, i, w, s, i + k);
  }

  lemma WordSplitsAtNewline(a: string, b: string, w: string)
    requires w != "" && '\n' !in w
    ensures HasWord(a + "\n" + b, w) <==> HasWord(a, w) || HasWord(b, w)
  {
    var s := a + "\n" + b;
    if HasWord(s, w) {
      var i: nat :| WordAt(s, i, w);
      WordOnOneSide(a, b, w, i);
    }
    if HasWord(a, w) {
      WordFromLeft(a, b, w);
    }
    if HasWord(b, w) {
      WordFromRight(a, b, w);
    }
  }

  /** A newline is never part of a marker, and it is a word boundary. */
  lemma MarkerSplitsAtNewline(a: string, b: string)
    ensures HasMarker(a + "\n" + b) <==> HasMarker(a) || HasMarker(b)
  {
    WordSplitsAtNewline(a, b, "sorry");
    WordSplitsAtNewline(a, b, "admit");
  }
}
