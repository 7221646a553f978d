/** The blueprint parser: a fence-aware line scan that turns markdown into nodes, and the
    validator's advisory warnings. */
module Blueprint {
  import opened Text

  datatype Node = Node(
    key: string, kind: Option<string>, lean: Option<string>, uses: seq<string>, statement: string)

  datatype Field = KindField | LeanField | UsesField

  // ---------- line shapes ----------

  predicate IsFence(line: string) {
    "```" <= LStrip(line)
  }

  /** The key of a `## ` heading.  Two or more spaces and nothing else give the blank key. */
  function HeadingKey(line: string): Option<string> {
    if !("##" <= line) then None
    else
      var r := line[2..];
      if r == "" || !IsSpace(r[0]) || (Blank(r) && |r| < 2) then None else Some(Strip(r))
  }

  function LowerChar(c: char): char {
    if 'A' <= c <= 'Z' then c + ('a' - 'A') else c
  }

  function Lower(s: string): (r: string)
    ensures |r| == |s|
  {
    seq(|s|, i requires 0 <= i < |s| => LowerChar(s[i]))
  }

  function FieldNamed(name: string): Option<Field> {
    if name == "kind" then Some(KindField)
    else if name == "lean" then Some(LeanField)
    else if name == "uses" then Some(UsesField)
    else None
  }

  /** A `- kind:`, `- lean:` or `- uses:` line, with its trimmed value. */
  function HeaderOf(line: string): Option<(Field, string)> {
    var t := LStrip(line);
    if t == "" || t[0] != '-' then None else HeaderName(LStrip(t[1..]))
  }

  function HeaderName(u: string): Option<(Field, string)> {
    if |u| < 4 || FieldNamed(Lower(u[..4])) == None then None
    else
      var v := LStrip(u[4..]);
      if v == "" || v[0] != ':' then None
      else Some((FieldNamed(Lower(u[..4])).value, Strip(v[1..])))
  }

  // ---------- header values ----------

  function LTicks(s: string): string {
    if s != "" && s[0] == '`' then LTicks(s[1..]) else s
  }

  function RTicks(s: string): string {
    if s != "" && Last(s) == '`' then RTicks(Front(s)) else s
  }

  function StripInlineCode(value: string): string {
    Strip(RTicks(LTicks(Strip(value))))
  }

  function NonEmpty(s: string): Option<string> {
    if s == "" then None else Some(s)
  }

  /** The parts that are not blank, trimmed. */
  function TrimParts(parts: seq<string>): seq<string> {
    if parts == [] then []
    else (if Strip(parts[0]) == "" then [] else [Strip(parts[0])]) + TrimParts(parts[1..])
  }

  function UsesIn(value: string): seq<string> {
    TrimParts(Split(value, ','))
  }

  function SetField(n: Node, f: Field, value: string): Node {
    match f
    case KindField => n.(kind := NonEmpty(Lower(Strip(value))))
    case LeanField => n.(lean := NonEmpty(StripInlineCode(value)))
    case UsesField => n.(uses := UsesIn(value))
  }

  // ---------- the scan ----------

  datatype PState = PState(nodes: seq<Node>, current: Option<Node>, lines: seq<string>, inFence: bool)

  const START := PState([], None, [], false)

  function Flush(s: PState): seq<Node> {
    match s.current
    case None => s.nodes
    case Some(n) => s.nodes + [n.(statement := Strip(Join(s.lines, "\n")))]
  }

  function Append(s: PState, line: string): PState {
    if s.current.Some? then s.(lines := s.lines + [line]) else s
  }

  function Step(s: PState, line: string): PState {
    if IsFence(line) then Append(s, line).(inFence := !s.inFence)
    else if s.inFence then Append(s, line)
    else if HeadingKey(line).Some? then
      PState(Flush(s), Some(Node(HeadingKey(line).value, None, None, [], "")), [], false)
    else if s.current.Some? && HeaderOf(line).Some? then
      var (f, value) := HeaderOf(line).value;
      s.(current := Some(SetField(s.current.value, f, value)))
    else Append(s, line)
  }

  function Run(s: PState, lines: seq<string>): PState
    decreases |lines|
  {
    if lines == [] then s else Run(Step(s, lines[0]), lines[1..])
  }

  function ParseNodes(text: string): seq<Node> {
    Flush(Run(START, Lines(text)))
  }

  method Parse(text: string) returns (nodes: seq<Node>)
    ensures nodes == ParseNodes(text)
  {
    nodes := [];
    var current: Option<Node>, statementLines: seq<string>, inFence := None, [], false;
    var lines := Lines(text);
    var i := 0;
    assert lines[0..] == lines;
    while i < |lines|
      invariant i <= |lines|
      invariant Run(PState(nodes, current, statementLines, inFence), lines[i..]) == Run(START, lines)
    {
      var line := lines[i];
      assert lines[i..][1..] == lines[i + 1..];
      i := i + 1;
      if IsFence(line) {
        inFence := !inFence;
        if current.Some? {
          statementLines := statementLines + [line];
        }
        continue;
      }
      if !inFence {
        var heading := HeadingKey(line);
        if heading.Some? {
          nodes := Flush(PState(nodes, current, statementLines, inFence));
          current := Some(Node(heading.value, None, None, [], ""));
          statementLines := [];
          continue;
        }
        var header := if current.Some? then HeaderOf(line) else None;
        if header.Some? {
          var (key, value) := header.value;
          current := Some(SetField(current.value, key, value));
          continue;
        }
      }
      if current.Some? {
        statementLines := statementLines + [line];
      }
    }
    nodes := Flush(PState(nodes, current, statementLines, inFence));
  }

  lemma {:induction false} RunConcat(s: PState, a: seq<string>, b: seq<string>)
    ensures Run(s, a + b) == Run(Run(s, a), b)
    decreases |a|
  {
    if a == [] {
      assert a + b == b;
    } else {
      assert (a + b)[1..] == a[1..] + b;
      RunConcat(Step(s, a[0]), a[1..], b);
    }
  }

  lemma RunOne(s: PState, line: string)
    ensures Run(s, [line]) == Step(s, line)
  {
    assert [line][1..] == [];
    assert Run(Step(s, line), []) == Step(s, line);
  }

  lemma {:induction false} NodesNeedCurrent(s: PState, lines: seq<string>)
    requires s.current.None? ==> s.nodes == []
    ensures Run(s, lines).current.None? ==> Run(s, lines).nodes == []
    decreases |lines|
  {
    if lines != [] {
      NodesNeedCurrent(Step(s, lines[0]), lines[1..]);
    }
  }

  function FenceCount(lines: seq<string>): nat {
    if lines == [] then 0 else (if IsFence(lines[0]) then 1 else 0) + FenceCount(lines[1..])
  }

  /** The parser ends inside a fence exactly when the number of fence lines is odd. */
  lemma {:induction false} FenceParity(s: PState, lines: seq<string>)
    ensures Run(s, lines).inFence <==> (s.inFence != (FenceCount(lines) % 2 == 1))
    decreases |lines|
  {
    if lines != [] {
      FenceParity(Step(s, lines[0]), lines[1..]);
    }
  }

  // ---------- blank lines and trailing whitespace ----------

  lemma BlankIsOther(line: string)
    requires Blank(line)
    ensures !IsFence(line) && HeadingKey(line) == None && HeaderOf(line) == None
  {
    BlankLStrip(line);
    assert line != "" ==> line[0] != '#';
  }

  lemma {:induction false} BlankLStrip(s: string)
    requires Blank(s)
    ensures LStrip(s) == ""
  {
    if s != "" {
      BlankLStrip(s[1..]);
    }
  }

  ghost predicate AllBlank(lines: seq<string>) {
    forall l :: l in lines ==> Blank(l)
  }

  lemma {:induction false} JoinBlank(lines: seq<string>)
    requires AllBlank(lines)
    ensures Blank(Join(lines, "\n"))
  {
    if |lines| > 1 {
      assert AllBlank(lines[1..]);
      JoinBlank(lines[1..]);
      assert Blank(lines[0]) && Blank("\n");
    } else if |lines| == 1 {
      assert lines[0] in lines;
    }
  }

  lemma StatementIgnoresBlank(lines: seq<string>, blanks: seq<string>)
    requires AllBlank(blanks)
    ensures Strip(Join(lines + blanks, "\n")) == Strip(Join(lines, "\n"))
  {
    JoinBlank(blanks);
    if blanks == [] {
      assert lines + blanks == lines;
    } else if lines == [] {
      assert lines + blanks == blanks;
      BlankStripsAway(Join(blanks, "\n"));
      BlankStripsAway("");
    } else {
      JoinAppend(lines, blanks, "\n");
      var j, tail := Join(lines, "\n"), "\n" + Join(blanks, "\n");
      StripPadded("", j, tail);
      assert "" + j + tail == j + "\n" + Join(blanks, "\n");
    }
  }

  /** Blank lines leave the nodes and the fence as they are. */
  lemma {:induction false} RunBlanks(s: PState, blanks: seq<string>)
    requires AllBlank(blanks)
    ensures var s' := Run(s, blanks);
      s' == (if s.current.Some? then s.(lines := s.lines + blanks) else s) && Flush(s') == Flush(s)
    decreases |blanks|
  {
    if blanks == [] {
      assert s.lines + blanks == s.lines;
    } else {
      BlankIsOther(blanks[0]);
      assert AllBlank(blanks[1..]);
      RunBlanks(Step(s, blanks[0]), blanks[1..]);
      Assoc(s.lines, [blanks[0]], blanks[1..]);
      assert [blanks[0]] + blanks[1..] == blanks;
      StatementIgnoresBlank(s.lines, blanks);
    }
  }

  /** Ends in a character that stripping keeps. */
  predicate SolidEnd(s: string) {
    s != "" && !IsSpace(Last(s))
  }

  lemma {:induction false} LStripTail(x: string, w: string)
    requires Blank(w)
    ensures LStrip(x + w) == if Blank(x) then "" else LStrip(x) + w
  {
    if x == "" {
      assert x + w == w;
      BlankLStrip(w);
    } else if IsSpace(x[0]) {
      assert (x + w)[1..] == x[1..] + w;
      LStripTail(x[1..], w);
      assert Blank(x) <==> Blank(x[1..]);
    }
  }

  lemma FenceTail(l: string, w: string)
    requires SolidEnd(l) && Blank(w)
    ensures IsFence(l + w) == IsFence(l)
  {
    LStripTail(l, w);
    var t := LStrip(l);
    assert !Blank(l);
    if |t| < 3 {
      assert |t + w| >= 3 ==> IsSpace((t + w)[2]);
    } else {
      assert (t + w)[..3] == t[..3];
    }
  }

  lemma HeadingTail(l: string, w: string)
    requires SolidEnd(l) && Blank(w)
    ensures l != "##" ==> HeadingKey(l + w) == HeadingKey(l)
    ensures l == "##" ==> HeadingKey(l) == None && HeadingKey(l + w) == if |w| < 2 then None else Some("")
  {
    if l == "##" {
      assert (l + w)[2..] == w;
      BlankStripsAway(w);
    } else if |l| < 2 {
      assert |l + w| > 1 ==> IsSpace((l + w)[1]);
    } else {
      assert (l + w)[..2] == l[..2];
      assert "##" <= l + w <==> "##" <= l;
      if "##" <= l {
        var r := l[2..];
        assert (l + w)[2..] == r + w && SolidEnd(r);
        assert !Blank(r) && !Blank(r + w) by { assert (r + w)[|r| - 1] == Last(r); }
        StripPadded("", r, w);
        assert "" + r + w == r + w;
      }
    }
  }

  lemma HeaderNameTail(u: string, w: string)
    requires SolidEnd(u) && Blank(w)
    ensures HeaderName(u + w) == HeaderName(u)
  {
    if |u| < 4 {
      if |u + w| >= 4 {
        assert Lower((u + w)[..4])[3] == (u + w)[3] by { assert IsSpace((u + w)[3]); }
      }
    } else {
      assert (u + w)[..4] == u[..4] && (u + w)[4..] == u[4..] + w;
      LStripTail(u[4..], w);
      var v := LStrip(u[4..]);
      var _ := LStripSplits(u[4..]);
      if Blank(u[4..]) {
        BlankLStrip(u[4..]);
      } else {
        assert v != "";
        assert (v + w)[1..] == v[1..] + w;
        StripPadded("", v[1..], w);
        assert "" + v[1..] + w == v[1..] + w;
      }
    }
  }

  lemma HeaderTail(l: string, w: string)
    requires SolidEnd(l) && Blank(w)
    ensures HeaderOf(l + w) == HeaderOf(l)
  {
    LStripTail(l, w);
    var a := LStripSplits(l);
    var t := LStrip(l);
    assert SolidEnd(t) by {
      assert !Blank(l);
      assert l == a + t && t != "";
    }
    if t[0] == '-' {
      assert (t + w)[1..] == t[1..] + w;
      LStripTail(t[1..], w);
      if Blank(t[1..]) {
        BlankLStrip(t[1..]);
      } else {
        var b := LStripSplits(t[1..]);
        var u := LStrip(t[1..]);
        assert SolidEnd(u) by { assert Last(t) == Last(t[1..]); }
        HeaderNameTail(u, w);
      }
    }
  }

  lemma StatementTail(lines: seq<string>, l: string, w: string)
    requires Blank(w)
    ensures Strip(Join(lines + [l + w], "\n")) == Strip(Join(lines + [l], "\n"))
  {
    var j := Join(lines + [l], "\n");
    if lines == [] {
      assert lines + [l] == [l] && lines + [l + w] == [l + w];
      StripPadded("", l, w);
      assert "" + l + w == l + w;
    } else {
      JoinAppend(lines, [l], "\n");
      JoinAppend(lines, [l + w], "\n");
      StripPadded("", j, w);
      assert "" + j + w == Join(lines, "\n") + "\n" + (l + w);
    }
  }

  /** Whitespace after a solid line end matters only to a bare `##`. */
  lemma StepTail(s: PState, l: string, w: string)
    requires SolidEnd(l) && Blank(w)
    requires !(l == "##" && |w| >= 2 && !s.inFence)
    ensures Flush(Step(s, l + w)) == Flush(Step(s, l))
    ensures Step(s, l + w).inFence == Step(s, l).inFence
  {
    FenceTail(l, w);
    HeadingTail(l, w);
    HeaderTail(l, w);
    StatementTail(s.lines, l, w);
  }

  /** The lines without the blank ones at the end. */
  function DropBlankLines(lines: seq<string>): seq<string> {
    if lines != [] && Blank(Last(lines)) then DropBlankLines(Front(lines)) else lines
  }

  /** The last line that is not blank is a heading, outside any fence, whose key is blank. */
  predicate EndsInBlankHeading(text: string) {
    var ls := DropBlankLines(Lines(text));
    ls != [] && HeadingKey(Last(ls)) == Some("") && !Run(START, Front(ls)).inFence
  }

  lemma {:induction false} DropBlankAppend(a: seq<string>, blanks: seq<string>)
    requires AllBlank(blanks) && a != [] && !Blank(Last(a))
    ensures DropBlankLines(a + blanks) == a
    decreases |blanks|
  {
    if blanks == [] {
      assert a + blanks == a;
    } else {
      assert Last(blanks) in blanks;
      assert Front(a + blanks) == a + Front(blanks);
      assert AllBlank(Front(blanks));
      DropBlankAppend(a, Front(blanks));
    }
  }

  lemma {:induction false} SplitBlank(w: string)
    requires Blank(w)
    ensures AllBlank(Split(w, '\n'))
  {
    if w != "" {
      SplitBlank(w[1..]);
      var rest := Split(w[1..], '\n');
      assert rest[0] in rest;
    } else {
      assert Split(w, '\n') == [""];
    }
  }

  /** The lines of a text that is `r` followed by whitespace. */
  lemma LinesWithTail(r: string, w: string) returns (w1: string, blanks: seq<string>)
    requires SolidEnd(r) && Blank(w)
    ensures Blank(w1) && AllBlank(blanks)
    ensures Lines(r + w) == Front(Split(r, '\n')) + [Last(Split(r, '\n')) + w1] + blanks
    ensures SolidEnd(Last(Split(r, '\n')))
  {
    LastLineSolid(r);
    var all := Split(r + w, '\n');
    w1, blanks := SplitWithTail(r, w);
    var head := Front(Split(r, '\n')) + [Last(Split(r, '\n')) + w1];
    assert Last(head) != "";
    if Last(all) == "" {
      assert Front(all) == head + Front(blanks);
      assert AllBlank(Front(blanks));
      blanks := Front(blanks);
    }
  }

  lemma {:induction false} LastLineSolid(r: string)
    requires SolidEnd(r)
    ensures SolidEnd(Last(Split(r, '\n')))
  {
    if |r| > 1 {
      assert Last(r[1..]) == Last(r);
      LastLineSolid(r[1..]);
    } else {
      assert Split(r[1..], '\n') == [""];
    }
  }

  lemma SplitWithTail(r: string, w: string) returns (w1: string, blanks: seq<string>)
    requires Blank(w)
    ensures Blank(w1) && AllBlank(blanks)
    ensures Split(r + w, '\n') == Front(Split(r, '\n')) + [Last(Split(r, '\n')) + w1] + blanks
  {
    if '\n' !in w {
      SplitExtendLast(r, w, '\n');
      w1, blanks := w, [];
    } else {
      var i :| 0 <= i < |w| && w[i] == '\n' && '\n' !in w[..i] by { FirstNewline(w); }
      w1, blanks := w[..i], Split(w[i + 1..], '\n');
      assert r + w == (r + w1) + "\n" + w[i + 1..];
      SplitAppend(r + w1, '\n', w[i + 1..]);
      SplitExtendLast(r, w1, '\n');
      SplitBlank(w[i + 1..]);
    }
  }

  lemma {:induction false} FirstNewline(w: string)
    requires '\n' in w
    ensures exists i :: 0 <= i < |w| && w[i] == '\n' && '\n' !in w[..i]
  {
    if w[0] == '\n' {
      assert w[..0] == "";
      assert 0 <= 0 < |w| && w[0] == '\n' && '\n' !in w[..0];
    } else {
      FirstNewline(w[1..]);
      var i :| 0 <= i < |w[1..]| && w[1..][i] == '\n' && '\n' !in w[1..][..i];
      assert w[..i + 1] == [w[0]] + w[1..][..i];
      assert w[i + 1] == '\n' && '\n' !in w[..i + 1];
    }
  }

  const BLANK_NODE := Node("", None, None, [], "")

  /** The same nodes in the same order, up to their statements. */
  ghost predicate Alike(a: seq<Node>, b: seq<Node>) {
    |a| == |b| && forall i :: 0 <= i < |a| ==> a[i] == b[i].(statement := a[i].statement)
  }

  /** What a text whose last solid line is `l`, padded with `w`, leaves in the parser. */
  lemma LastLineRuns(text: string, head: seq<string>, l: string, w: string, blanks: seq<string>)
    requires SolidEnd(l) && Blank(w) && AllBlank(blanks) && Lines(text) == head + [l + w] + blanks
    ensures var s0 := Run(START, head);
      && ParseNodes(text) == Flush(Step(s0, l + w))
      && Run(START, Lines(text)).inFence == Step(s0, l + w).inFence
      && (EndsInBlankHeading(text) <==> HeadingKey(l + w) == Some("") && !s0.inFence)
  {
    var s0 := Run(START, head);
    assert !Blank(l + w) by { assert (l + w)[|l| - 1] == Last(l); }
    hide Step, Flush, HeadingKey, SolidEnd, Lines, Blank;
    RunConcat(START, head + [l + w], blanks);
    RunConcat(START, head, [l + w]);
    RunOne(s0, l + w);
    hide Run;
    RunBlanks(Step(s0, l + w), blanks);
    DropBlankAppend(head + [l + w], blanks);
    assert Front(head + [l + w]) == head;
  }

  lemma LastLineAlone(head: seq<string>, l: string)
    ensures Run(START, head + [l]) == Step(Run(START, head), l)
  {
    RunConcat(START, head, [l]);
    RunOne(Run(START, head), l);
  }

  /** Reading a text without its trailing whitespace gives the same nodes and the same fence
      state, unless the text ends in a heading with a blank key: then exactly that node is lost. */
  lemma TrailingSpace(text: string)
    ensures Run(START, Lines(text)).inFence == Run(START, Split(RStrip(text), '\n')).inFence
    ensures !EndsInBlankHeading(text) ==> ParseNodes(text) == Flush(Run(START, Split(RStrip(text), '\n')))
    ensures EndsInBlankHeading(text) ==>
      && ParseNodes(text) != [] && Last(ParseNodes(text)) == BLANK_NODE
      && Alike(Front(ParseNodes(text)), Flush(Run(START, Split(RStrip(text), '\n'))))
      && !Run(START, Lines(text)).inFence
  {
    var r := RStrip(text);
    var w := RStripSplits(text);
    if r == "" {
      BlankText(text);
    } else {
      assert SolidEnd(r);
      var w1, blanks := LinesWithTail(r, w);
      var head, l := Front(Split(r, '\n')), Last(Split(r, '\n'));
      var s0 := Run(START, head);
      assert Split(r, '\n') == head + [l];
      LastLineAlone(head, l);
      LastLineRuns(text, head, l, w1, blanks);
      HeadingTail(l, w1);
      hide Step, Flush, HeadingKey, Lines, ParseNodes, EndsInBlankHeading, Run, RStrip;
      if l == "##" && |w1| >= 2 && !s0.inFence {
        BareHeading(s0, w1);
      } else {
        StepTail(s0, l, w1);
        if l != "##" {
          SolidHeading(l);
        }
      }
    }
  }

  lemma SolidHeading(l: string)
    requires SolidEnd(l)
    ensures HeadingKey(l) != Some("")
  {
    if "##" <= l && |l| > 2 {
      assert Last(l[2..]) == Last(l);
      BlankStripsAway(l[2..]);
    }
  }

  lemma BlankText(text: string)
    requires Blank(text) || RStrip(text) == ""
    ensures Run(START, Lines(text)) == START && Run(START, Split("", '\n')) == START
    ensures !EndsInBlankHeading(text)
  {
    var w := RStripSplits(text);
    assert Blank(text);
    SplitBlank(text);
    var ls := Lines(text);
    assert AllBlank(ls);
    RunBlanks(START, ls);
    assert Split("", '\n') == [""];
    assert Blank("");
    RunBlanks(START, [""]);
    DropAllBlank(ls);
  }

  lemma {:induction false} DropAllBlank(ls: seq<string>)
    requires AllBlank(ls)
    ensures DropBlankLines(ls) == []
    decreases |ls|
  {
    if ls != [] {
      assert Last(ls) in ls;
      assert AllBlank(Front(ls));
      DropAllBlank(Front(ls));
    }
  }

  /** A bare `##` is statement text; with two spaces behind it, it opens a node. */
  lemma BareHeading(s: PState, w: string)
    requires Blank(w) && |w| >= 2 && !s.inFence
    ensures Flush(Step(s, "##" + w)) == Flush(s) + [BLANK_NODE]
    ensures Alike(Flush(s), Flush(Step(s, "##")))
    ensures !Step(s, "##").inFence && !Step(s, "##" + w).inFence
  {
    FenceTail("##", w);
    HeadingTail("##", w);
    assert LStrip("##") == "##" && !IsFence("##");
    assert HeaderOf("##") == None;
    assert Strip(Join([], "\n")) == "";
  }

  // ---------- validate ----------

  const VALID_KINDS := ["definition", "lemma", "theorem"]

  datatype Warning =
    | DuplicateKey(key: string)
    | MissingKind(key: string)
    | UnknownKind(key: string, kind: string)
    | DanglingUse(key: string, dep: string)

  function Keys(nodes: seq<Node>): (r: seq<string>)
    ensures |r| == |nodes|
  {
    seq(|nodes|, i requires 0 <= i < |nodes| => nodes[i].key)
  }

  function Duplicates(keys: seq<string>, seen: set<string>): seq<Warning> {
    if keys == [] then []
    else (if keys[0] in seen then [DuplicateKey(keys[0])] else []) + Duplicates(keys[1..], seen + {keys[0]})
  }

  function KindWarnings(n: Node): seq<Warning> {
    match n.kind
    case None => [MissingKind(n.key)]
    case Some(k) => if k in VALID_KINDS then [] else [UnknownKind(n.key, k)]
  }

  function UseWarnings(key: string, uses: seq<string>, known: set<string>): seq<Warning> {
    if uses == [] then []
    else (if uses[0] in known then [] else [DanglingUse(key, uses[0])]) + UseWarnings(key, uses[1..], known)
  }

  function NodeWarnings(nodes: seq<Node>, known: set<string>): seq<Warning> {
    if nodes == [] then []
    else KindWarnings(nodes[0]) + UseWarnings(nodes[0].key, nodes[0].uses, known) + NodeWarnings(nodes[1..], known)
  }

  function KeySet(nodes: seq<Node>): set<string> {
    set n | n in nodes :: n.key
  }

  function Warnings(nodes: seq<Node>): seq<Warning> {
    Duplicates(Keys(nodes), {}) + NodeWarnings(nodes, KeySet(nodes))
  }

  /** The check for repeated keys. */
  method WarnDuplicates(keys: seq<string>) returns (warnings: seq<Warning>)
    ensures warnings == Duplicates(keys, {})
  {
    warnings := [];
    var seen: set<string>, i := {}, 0;
    assert keys[0..] == keys;
    while i < |keys|
      invariant i <= |keys|
      invariant warnings + Duplicates(keys[i..], seen) == Duplicates(keys, {})
    {
      assert keys[i..][1..] == keys[i + 1..];
      if keys[i] in seen {
        warnings := warnings + [DuplicateKey(keys[i])];
      }
      seen := seen + {keys[i]};
      i := i + 1;
    }
  }

  /** The check for dependencies that name no node. */
  method WarnUses(node: Node, known: set<string>) returns (warnings: seq<Warning>)
    ensures warnings == UseWarnings(node.key, node.uses, known)
  {
    warnings := [];
    var j := 0;
    assert node.uses[0..] == node.uses;
    while j < |node.uses|
      invariant j <= |node.uses|
      invariant warnings + UseWarnings(node.key, node.uses[j..], known) == UseWarnings(node.key, node.uses, known)
    {
      assert node.uses[j..][1..] == node.uses[j + 1..];
      if node.uses[j] !in known {
        warnings := warnings + [DanglingUse(node.key, node.uses[j])];
      }
      j := j + 1;
    }
  }

  lemma KeySetIsKeys(nodes: seq<Node>)
    ensures (set k | k in Keys(nodes)) == KeySet(nodes)
  {
    forall n | n in nodes
      ensures n.key in Keys(nodes)
    {
      var i :| 0 <= i < |nodes| && nodes[i] == n;
      assert Keys(nodes)[i] == n.key;
    }
  }

  method Validate(text: string) returns (warnings: seq<Warning>)
    ensures warnings == Warnings(ParseNodes(text))
  {
    var nodes := Parse(text);
    var known := set k | k in Keys(nodes);
    KeySetIsKeys(nodes);
    warnings := WarnDuplicates(Keys(nodes));
    ghost var dups := warnings;
    var i := 0;
    assert nodes[0..] == nodes;
    while i < |nodes|
      invariant i <= |nodes|
      invariant warnings + NodeWarnings(nodes[i..], known) == dups + NodeWarnings(nodes, known)
    {
      assert nodes[i..][1..] == nodes[i + 1..];
      var uses := WarnUses(nodes[i], known);
      Assoc(warnings, KindWarnings(nodes[i]) + uses, NodeWarnings(nodes[i + 1..], known));
      Assoc(warnings, KindWarnings(nodes[i]), uses);
      warnings := warnings + KindWarnings(nodes[i]) + uses;
      i := i + 1;
    }
  }
}
