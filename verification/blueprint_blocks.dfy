/** The blueprint generator's printer: one `## ` section per synthesized node, appended to the
    existing document so that the parser reads it back. */
module BlueprintBlocks {
  import opened Text
  import opened Blueprint

  /** What one appended section says. */
  datatype Entry = Entry(key: string, kind: string, lean: string, uses: seq<string>, statement: string)

  function AsNode(e: Entry): Node {
    Node(e.key, Some(e.kind), Some(e.lean), e.uses, e.statement)
  }

  function AsNodes(es: seq<Entry>): (r: seq<Node>)
    ensures |r| == |es|
  {
    seq(|es|, i requires 0 <= i < |es| => AsNode(es[i]))
  }

  function HeadLines(e: Entry): seq<string> {
    ["## " + e.key, "- kind: " + e.kind, "- lean: `" + e.lean + "`"]
    + (if e.uses != [] then ["- uses: " + Join(e.uses, ", ")] else [])
    + [""]
  }

  function RenderBlock(e: Entry): string {
    Join(HeadLines(e) + [e.statement], "\n")
  }

  function Blocks(es: seq<Entry>): seq<string> {
    if es == [] then [] else [RenderBlock(es[0])] + Blocks(es[1..])
  }

  function Closer(existing: string): string {
    if FenceCount(Lines(existing)) % 2 == 1 then "```\n\n" else ""
  }

  function NewText(existing: string, es: seq<Entry>): string {
    RStrip(existing) + "\n\n" + Closer(existing) + Join(Blocks(es), "\n\n") + "\n"
  }

  // ---------- what can be read back ----------

  predicate KeyOk(key: string) {
    key != "" && Trimmed(key) && '\n' !in key
  }

  predicate LeanOk(lean: string) {
    lean != "" && Trimmed(lean) && lean[0] != '`' && Last(lean) != '`' && '\n' !in lean
  }

  predicate UseOk(u: string) {
    u != "" && Trimmed(u) && ',' !in u && '\n' !in u
  }

  /** No heading or header line outside a fence, and every fence closed. */
  predicate Inert(lines: seq<string>, inFence: bool) {
    if lines == [] then !inFence
    else if IsFence(lines[0]) then Inert(lines[1..], !inFence)
    else (inFence || (HeadingKey(lines[0]) == None && HeaderOf(lines[0]) == None)) && Inert(lines[1..], inFence)
  }

  /** The shape of an entry that survives printing and parsing. */
  predicate Readable(e: Entry) {
    && KeyOk(e.key)
    && LeanOk(e.lean)
    && (forall u :: u in e.uses ==> UseOk(u))
    && Trimmed(e.statement)
    && Inert(Split(e.statement, '\n'), false)
  }

  // ---------- single lines ----------

  lemma HeadingReads(key: string)
    requires KeyOk(key)
    ensures !IsFence("## " + key) && HeadingKey("## " + key) == Some(key)
  {
    var line := "## " + key;
    assert line[..2] == "##";
    assert line[2..] == " " + key;
    assert !Blank(" " + key) by { assert (" " + key)[1] == key[0]; }
    StripFinds(" ", key, "");
    assert " " + key + "" == " " + key;
  }

  /** A printed header line reads back as its field and trimmed value. */
  lemma HeaderReads(name: string, f: Field, value: string)
    requires |name| == 4 && Lower(name) == name && FieldNamed(name) == Some(f)
    ensures var line := "- " + name + ": " + value;
      !IsFence(line) && HeadingKey(line) == None && HeaderOf(line) == Some((f, Strip(value)))
  {
    var line := "- " + name + ": " + value;
    assert line[0] != '#';
    assert LStrip(line) == line;
    var u := name + ": " + value;
    assert line[1..] == " " + u;
    assert !IsSpace(u[0]) by { assert u[0] == name[0]; NameStart(name); }
    LStripDrops(" ", u);
    assert u[..4] == name && u[4..] == ": " + value;
    var v := ": " + value;
    assert LStrip(v) == v;
    assert v[1..] == " " + value;
    StripPadded(" ", value, "");
    assert " " + value + "" == " " + value;
  }

  lemma NameStart(name: string)
    requires FieldNamed(name).Some?
    ensures name != "" && !IsSpace(name[0])
  {
    assert name == "kind" || name == "lean" || name == "uses";
  }

  predicate ValidKind(kind: string) {
    kind in VALID_KINDS
  }

  lemma KindReads(kind: string)
    requires ValidKind(kind)
    ensures Strip(kind) == kind && NonEmpty(Lower(Strip(kind))) == Some(kind) && '\n' !in kind
  {
    assert Lower(kind) == kind;
  }

  lemma {:induction false} LTicksDrop(s: string)
    requires s != "" && s[0] != '`'
    ensures LTicks("`" + s) == s
  {
    assert ("`" + s)[1..] == s;
  }

  lemma LeanReads(lean: string)
    requires LeanOk(lean)
    ensures StripInlineCode("`" + lean + "`") == lean && Strip("`" + lean + "`") == "`" + lean + "`"
  {
    var q := "`" + lean + "`";
    assert q == "`" + (lean + "`");
    LTicksDrop(lean + "`");
    assert Front(lean + "`") == lean;
    assert RTicks(lean) == lean;
  }

  // ---------- the uses line ----------

  lemma TrimLeadSpace(s: string)
    ensures UsesIn(" " + s) == UsesIn(s)
  {
    var parts := Split(s, ',');
    assert (" " + s)[1..] == s;
    var parts' := Split(" " + s, ',');
    assert parts' == [[' '] + parts[0]] + parts[1..];
    StripPadded(" ", parts[0], "");
    assert " " + parts[0] + "" == [' '] + parts[0];
    assert parts'[1..] == parts[1..];
  }

  /** A list of trimmed, comma-free names survives printing and parsing. */
  lemma {:induction false} UsesRead(us: seq<string>)
    requires us != [] && forall u :: u in us ==> UseOk(u)
    ensures UsesIn(Join(us, ", ")) == us
    decreases |us|
  {
    assert UseOk(us[0]);
    SplitFree(us[0], ',');
    if |us| == 1 {
      assert [us[0]][1..] == [];
      assert TrimParts([]) == [];
    } else {
      var j := Join(us[1..], ", ");
      assert Join(us, ", ") == us[0] + [','] + (" " + j);
      SplitAppend(us[0], ',', " " + j);
      var rest := Split(" " + j, ',');
      assert ([us[0]] + rest)[1..] == rest;
      TrimLeadSpace(j);
      UsesRead(us[1..]);
    }
  }

  lemma {:induction false} JoinTrimmed(us: seq<string>)
    requires us != [] && forall u :: u in us ==> UseOk(u)
    ensures Trimmed(Join(us, ", ")) && Join(us, ", ") != "" && '\n' !in Join(us, ", ")
    ensures !IsSpace(Join(us, ", ")[0]) && !IsSpace(Last(Join(us, ", ")))
  {
    assert UseOk(us[0]);
    if |us| > 1 {
      JoinTrimmed(us[1..]);
      var j := Join(us[1..], ", ");
      var r := us[0] + ", " + j;
      assert Last(r) == Last(j);
      assert '\n' !in ", ";
    }
  }

  // ---------- one block ----------

  /** The lines of a printed block. */
  function BlockLines(e: Entry): seq<string> {
    HeadLines(e) + Split(e.statement, '\n')
  }

  ghost predicate HeadNewlineFree(e: Entry) {
    forall l :: l in HeadLines(e) ==> '\n' !in l
  }

  lemma BlockSplits(e: Entry)
    requires HeadNewlineFree(e)
    ensures Split(RenderBlock(e), '\n') == BlockLines(e)
  {
    var head := HeadLines(e);
    JoinAppend(head, [e.statement], "\n");
    assert RenderBlock(e) == Join(head, "\n") + "\n" + e.statement;
    SplitAppend(Join(head, "\n"), '\n', e.statement);
    SplitJoin(head, '\n');
  }

  lemma HeadIsNewlineFree(e: Entry)
    requires KeyOk(e.key) && ValidKind(e.kind) && '\n' !in e.lean && (forall u :: u in e.uses ==> UseOk(u))
    ensures HeadNewlineFree(e)
  {
    KindReads(e.kind);
    if e.uses != [] {
      JoinTrimmed(e.uses);
    }
    assert '\n' !in "## " && '\n' !in "- kind: " && '\n' !in "- lean: `" && '\n' !in "- uses: ";
  }

  /** What the parser makes of the printed `lean:` line. */
  function LeanRead(e: Entry): Option<string> {
    NonEmpty(StripInlineCode("`" + e.lean + "`"))
  }

  /** The state once the header of a block has been read. */
  function HeadState(before: seq<Node>, e: Entry): PState {
    PState(before, Some(Node(e.key, Some(e.kind), LeanRead(e), e.uses, "")), [""], false)
  }

  lemma KeyLineRuns(s: PState, e: Entry)
    requires !s.inFence && KeyOk(e.key)
    ensures Run(s, ["## " + e.key]) == PState(Flush(s), Some(Node(e.key, None, None, [], "")), [], false)
  {
    HeadingReads(e.key);
    RunOne(s, "## " + e.key);
  }

  lemma HeaderRuns(s: PState, line: string, f: Field, value: string)
    requires s.current.Some? && !s.inFence
    requires !IsFence(line) && HeadingKey(line) == None && HeaderOf(line) == Some((f, value))
    ensures Run(s, [line]) == s.(current := Some(SetField(s.current.value, f, value)))
  {
    hide IsFence, HeadingKey, HeaderOf, SetField;
    RunOne(s, line);
  }

  lemma KindLineRuns(s: PState, e: Entry)
    requires s.current.Some? && !s.inFence && ValidKind(e.kind)
    ensures Run(s, ["- kind: " + e.kind]) == s.(current := Some(s.current.value.(kind := Some(e.kind))))
  {
    KindReads(e.kind);
    HeaderReads("kind", KindField, e.kind);
    assert "- " + "kind" + ": " + e.kind == "- kind: " + e.kind;
    hide IsFence, HeadingKey, HeaderOf, Run;
    HeaderRuns(s, "- kind: " + e.kind, KindField, Strip(e.kind));
  }

  lemma LeanLineRuns(s: PState, e: Entry)
    requires s.current.Some? && !s.inFence
    ensures Run(s, ["- lean: `" + e.lean + "`"]) == s.(current := Some(s.current.value.(lean := LeanRead(e))))
  {
    HeaderReads("lean", LeanField, "`" + e.lean + "`");
    assert "- " + "lean" + ": " + ("`" + e.lean + "`") == "- lean: `" + e.lean + "`";
    hide IsFence, HeadingKey, HeaderOf, Run;
    HeaderRuns(s, "- lean: `" + e.lean + "`", LeanField, Strip("`" + e.lean + "`"));
  }

  lemma UsesLineRuns(s: PState, uses: seq<string>)
    requires s.current.Some? && !s.inFence && s.current.value.uses == []
    requires forall u :: u in uses ==> UseOk(u)
    ensures Run(s, if uses != [] then ["- uses: " + Join(uses, ", ")] else [])
         == s.(current := Some(s.current.value.(uses := uses)))
  {
    if uses != [] {
      var j := Join(uses, ", ");
      JoinTrimmed(uses);
      UsesRead(uses);
      assert Strip(j) == j;
      HeaderReads("uses", UsesField, j);
      assert "- " + "uses" + ": " + j == "- uses: " + j;
      hide IsFence, HeadingKey, HeaderOf, Run, Join, UsesIn, Strip;
      HeaderRuns(s, "- uses: " + j, UsesField, j);
    }
  }

  lemma EmptyLineRuns(s: PState)
    requires s.current.Some? && !s.inFence
    ensures Run(s, [""]) == s.(lines := s.lines + [""])
  {
    BlankIsOther("");
    RunOne(s, "");
  }

  lemma HeadRuns(s: PState, e: Entry)
    requires !s.inFence && KeyOk(e.key) && ValidKind(e.kind) && (forall u :: u in e.uses ==> UseOk(u))
    ensures Run(s, HeadLines(e)) == HeadState(Flush(s), e)
  {
    hide Run, Step, Flush, Join, LeanRead;
    var n := Node(e.key, None, None, [], "");
    var s1 := PState(Flush(s), Some(n), [], false);
    var s2 := s1.(current := Some(n.(kind := Some(e.kind))));
    var s3 := s2.(current := Some(n.(kind := Some(e.kind), lean := LeanRead(e))));
    var s4 := s3.(current := Some(n.(kind := Some(e.kind), lean := LeanRead(e), uses := e.uses)));
    KeyLineRuns(s, e);
    KindLineRuns(s1, e);
    LeanLineRuns(s2, e);
    UsesLineRuns(s3, e.uses);
    EmptyLineRuns(s4);
    var a, b, c := ["## " + e.key], ["- kind: " + e.kind], ["- lean: `" + e.lean + "`"];
    var d := if e.uses != [] then ["- uses: " + Join(e.uses, ", ")] else [];
    assert HeadLines(e) == a + b + c + d + [""];
    hide HeadLines, KeyOk, ValidKind, UseOk;
    RunConcat(s, a, b);
    RunConcat(s, a + b, c);
    RunConcat(s, a + b + c, d);
    RunConcat(s, a + b + c + d, [""]);
  }

  /** Inert lines only extend the statement. */
  lemma {:induction false} InertRuns(s: PState, lines: seq<string>)
    requires s.current.Some? && Inert(lines, s.inFence)
    ensures Run(s, lines) == s.(lines := s.lines + lines, inFence := false)
    decreases |lines|
  {
    if lines == [] {
      assert s.lines + [] == s.lines;
    } else {
      InertRuns(Step(s, lines[0]), lines[1..]);
      Assoc(s.lines, [lines[0]], lines[1..]);
      assert [lines[0]] + lines[1..] == lines;
    }
  }

  lemma StatementReads(statement: string)
    ensures Strip(Join([""] + Split(statement, '\n'), "\n")) == Strip(statement)
  {
    JoinAppend([""], Split(statement, '\n'), "\n");
    JoinSplit(statement, '\n');
    StripPadded("\n", statement, "");
    assert "" + "\n" + statement == "\n" + statement + "";
  }

  /** A readable block adds exactly its node, from any state outside a fence. */
  lemma BlockRuns(s: PState, e: Entry)
    requires !s.inFence && ValidKind(e.kind) && Readable(e)
    ensures var s' := Run(s, BlockLines(e));
      Flush(s') == Flush(s) + [AsNode(e)] && !s'.inFence && s'.current.Some?
  {
    var h := HeadState(Flush(s), e);
    LeanReads(e.lean);
    HeadRuns(s, e);
    RunConcat(s, HeadLines(e), Split(e.statement, '\n'));
    InertRuns(h, Split(e.statement, '\n'));
    StatementReads(e.statement);
  }

  // ---------- exactly the readable blocks read back ----------

  /** What every node the parser builds satisfies. */
  predicate WellRead(n: Node) {
    && Trimmed(n.key) && '\n' !in n.key
    && (n.lean.Some? ==> '\n' !in n.lean.value)
    && (forall u :: u in n.uses ==> UseOk(u))
  }

  ghost predicate WellReadState(s: PState) {
    (forall n :: n in s.nodes ==> WellRead(n)) && (s.current.Some? ==> WellRead(s.current.value))
  }

  lemma {:induction false} TicksKeepChars(s: string, c: char)
    ensures c in LTicks(s) ==> c in s
    ensures c in RTicks(s) ==> c in s
    decreases |s|
  {
    if s != "" && s[0] == '`' {
      TicksKeepChars(s[1..], c);
    }
    if s != "" && Last(s) == '`' {
      TicksKeepChars(Front(s), c);
    }
  }

  lemma StripInlineKeepsChars(v: string, c: char)
    ensures c in StripInlineCode(v) ==> c in v
  {
    StripKeepsChars(v, c);
    TicksKeepChars(Strip(v), c);
    TicksKeepChars(LTicks(Strip(v)), c);
    StripKeepsChars(RTicks(LTicks(Strip(v))), c);
  }

  lemma LStripKeepsChars(s: string, c: char)
    ensures c in LStrip(s) ==> c in s
  {
    var a := LStripSplits(s);
  }

  lemma HeaderValueChars(line: string, c: char)
    requires HeaderOf(line).Some?
    ensures c in HeaderOf(line).value.1 ==> c in line
  {
    var t := LStrip(line);
    LStripKeepsChars(line, c);
    var u := LStrip(t[1..]);
    LStripKeepsChars(t[1..], c);
    var v := LStrip(u[4..]);
    LStripKeepsChars(u[4..], c);
    StripKeepsChars(v[1..], c);
  }

  lemma {:induction false} SplitKeepsChars(s: string, sep: char, c: char)
    requires c !in s
    ensures forall p :: p in Split(s, sep) ==> c !in p
  {
    if s != "" {
      SplitKeepsChars(s[1..], sep, c);
      var rest := Split(s[1..], sep);
      assert rest[0] in rest;
    }
  }

  lemma {:induction false} PartsAreUses(parts: seq<string>)
    requires forall p :: p in parts ==> ',' !in p && '\n' !in p
    ensures forall u :: u in TrimParts(parts) ==> UseOk(u)
  {
    if parts != [] {
      PartsAreUses(parts[1..]);
      var a, b := StripSplits(parts[0]);
      assert parts[0] in parts;
      StripKeepsChars(parts[0], ',');
      StripKeepsChars(parts[0], '\n');
    }
  }

  lemma StepWellRead(s: PState, line: string)
    requires WellReadState(s) && '\n' !in line
    ensures WellReadState(Step(s, line))
  {
    if HeadingKey(line).Some? {
      var a, b := StripSplits(line[2..]);
      StripKeepsChars(line[2..], '\n');
    }
    if HeaderOf(line).Some? {
      var (f, value) := HeaderOf(line).value;
      HeaderValueChars(line, '\n');
      StripInlineKeepsChars(value, '\n');
      SplitPartsFree(value, ',');
      SplitKeepsChars(value, ',', '\n');
      PartsAreUses(Split(value, ','));
    }
  }

  lemma {:induction false} RunWellRead(s: PState, lines: seq<string>)
    requires WellReadState(s) && forall l :: l in lines ==> '\n' !in l
    ensures WellReadState(Run(s, lines))
    decreases |lines|
  {
    if lines != [] {
      StepWellRead(s, lines[0]);
      RunWellRead(Step(s, lines[0]), lines[1..]);
    }
  }

  function TextLen(lines: seq<string>): nat {
    if lines == [] then 0 else |lines[0]| + 1 + TextLen(lines[1..])
  }

  lemma {:induction false} JoinLength(lines: seq<string>)
    requires lines != []
    ensures |Join(lines, "\n")| + 1 == TextLen(lines)
  {
    if |lines| > 1 {
      JoinLength(lines[1..]);
    } else {
      assert TextLen(lines[1..]) == 0;
    }
  }

  lemma {:induction false} TextLenAppend(lines: seq<string>, l: string)
    ensures TextLen(lines + [l]) == TextLen(lines) + |l| + 1
  {
    if lines == [] {
      assert lines + [l] == [l] && TextLen([l][1..]) == 0;
    } else {
      assert (lines + [l])[1..] == lines[1..] + [l];
      TextLenAppend(lines[1..], l);
    }
  }

  /** Lines that open no node lengthen the statement by themselves only if they are inert. */
  lemma {:induction false} ActiveShortens(s: PState, lines: seq<string>)
    requires s.current.Some?
    ensures var s' := Run(s, lines);
      && s'.current.Some? && |s'.nodes| >= |s.nodes|
      && (|s'.nodes| == |s.nodes| ==>
          && s.lines <= s'.lines
          && TextLen(s'.lines) <= TextLen(s.lines) + TextLen(lines)
          && (Inert(lines, s.inFence) || s'.inFence || TextLen(s'.lines) < TextLen(s.lines) + TextLen(lines)))
    decreases |lines|
  {
    if lines != [] {
      var s1 := Step(s, lines[0]);
      ActiveShortens(s1, lines[1..]);
      TextLenAppend(s.lines, lines[0]);
    }
  }

  lemma {:induction false} LTicksLength(s: string)
    ensures |LTicks(s)| <= |s| && (s != "" && s[0] == '`' ==> |LTicks(s)| < |s|)
  {
    if s != "" && s[0] == '`' {
      LTicksLength(s[1..]);
    }
  }

  lemma {:induction false} RTicksLength(s: string)
    ensures |RTicks(s)| <= |s| && (s != "" && Last(s) == '`' ==> |RTicks(s)| < |s|)
  {
    if s != "" && Last(s) == '`' {
      RTicksLength(Front(s));
    }
  }

  /** Backticks and spaces at either end of a name do not survive. */
  lemma LeanReadsOnly(lean: string)
    requires lean != "" && '\n' !in lean && StripInlineCode("`" + lean + "`") == lean
    ensures LeanOk(lean)
  {
    var q := "`" + lean + "`";
    assert q[1..] == lean + "`";
    var l := LTicks(q);
    assert l == LTicks(lean + "`");
    LTicksLength(lean + "`");
    RTicksLength(l);
    StripShortens(RTicks(l));
    var a, b := StripSplits(RTicks(l));
    if lean[0] == '`' {
      LTicksAll(lean);
    } else {
      assert l == lean + "`" && Front(l) == lean;
      assert RTicks(l) == RTicks(lean);
      RTicksLength(lean);
    }
  }

  /** With a leading backtick the result is shorter than the name. */
  lemma LTicksAll(lean: string)
    requires lean != "" && lean[0] == '`'
    ensures |StripInlineCode("`" + lean + "`")| < |lean|
  {
    var q := "`" + lean + "`";
    assert q[1..] == lean + "`" && (lean + "`")[0] == '`';
    var l := LTicks(q);
    LTicksLength(lean + "`");
    assert |l| <= |lean|;
    LTicksEnd(lean);
    RTicksLength(l);
    StripShortens(RTicks(l));
  }

  lemma {:induction false} LTicksEnd(s: string)
    ensures LTicks(s + "`") == "" || Last(LTicks(s + "`")) == '`'
  {
    if s == "" {
      assert s + "`" == "`" && "`"[1..] == "";
      assert LTicks("") == "";
    } else if s[0] == '`' {
      assert (s + "`")[1..] == s[1..] + "`";
      LTicksEnd(s[1..]);
    }
  }

  /** Reading the printed block gives exactly its node, outside any fence. */
  ghost predicate ReadsBack(e: Entry) {
    var s := Run(START, Split(RenderBlock(e), '\n'));
    Flush(s) == [AsNode(e)] && !s.inFence
  }

  /** For the non-empty keys and names and the known kinds the generator uses, a block reads back
      exactly when its fields have the readable shape. */
  lemma ReadsBackIffReadable(e: Entry)
    requires e.key != "" && e.lean != "" && ValidKind(e.kind)
    ensures ReadsBack(e) <==> Readable(e)
  {
    if Readable(e) {
      HeadIsNewlineFree(e);
      BlockSplits(e);
      BlockRuns(START, e);
      assert Flush(START) == [];
    }
    if ReadsBack(e) {
      ReadsBackOnlyReadable(e);
    }
  }

  lemma ReadsBackOnlyReadable(e: Entry)
    requires e.key != "" && e.lean != "" && ValidKind(e.kind) && ReadsBack(e)
    ensures Readable(e)
  {
    var lines := Split(RenderBlock(e), '\n');
    var s := Run(START, lines);
    SplitPartsFree(RenderBlock(e), '\n');
    RunWellRead(START, lines);
    assert Flush(s) == [AsNode(e)] && s.current.Some? by {
      NodesNeedCurrent(START, lines);
    }
    var n := s.current.value;
    assert s.nodes == [];
    assert AsNode(e) == n.(statement := Strip(Join(s.lines, "\n"))) by {
      assert Flush(s)[0] == AsNode(e);
    }
    assert WellRead(n);
    HeadIsNewlineFree(e);
    BlockSplits(e);
    StatementOnlyInert(e, s);
  }

  lemma StatementOnlyInert(e: Entry, s: PState)
    requires e.lean != "" && ValidKind(e.kind) && KeyOk(e.key)
    requires '\n' !in e.lean && (forall u :: u in e.uses ==> UseOk(u))
    requires s == Run(START, BlockLines(e)) && Flush(s) == [AsNode(e)] && !s.inFence
    ensures Readable(e)
  {
    var h := HeadState([], e);
    var st := Split(e.statement, '\n');
    HeadRuns(START, e);
    assert Flush(START) == [];
    RunConcat(START, HeadLines(e), st);
    ActiveShortens(h, st);
    assert Flush(s)[0].statement == e.statement;
    var _, _ := StripSplits(Join(s.lines, "\n"));
    assert |s.nodes| == |h.nodes|;
    if !Inert(st, false) {
      ShortStatement(s.lines, e.statement);
    } else {
      InertRuns(h, st);
      assert Flush(s)[0].lean == LeanRead(e);
      LeanReadsOnly(e.lean);
    }
  }

  /** Statement lines that are too short cannot spell the statement. */
  lemma ShortStatement(lines: seq<string>, statement: string)
    requires [""] <= lines && TextLen(lines) < 1 + TextLen(Split(statement, '\n'))
    ensures Strip(Join(lines, "\n")) != statement || statement == ""
  {
    JoinSplit(statement, '\n');
    JoinLength(Split(statement, '\n'));
    JoinLength(lines);
    var j := Join(lines, "\n");
    if |lines| == 1 {
      assert j == "";
      assert Strip("") == "";
    } else {
      assert lines[0] == "";
      assert j == "\n" + j[1..];
      StripPadded("\n", j[1..], "");
      assert "\n" + j[1..] + "" == j;
      StripShortens(j[1..]);
    }
  }
}
