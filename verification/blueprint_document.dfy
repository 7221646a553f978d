/** The document the blueprint generator writes, and what the parser makes of it. */
module BlueprintDocument {
  import opened Text
  import opened Blueprint
  import opened BlueprintBlocks

  // ---------- the appended document ----------

  ghost predicate AllReadable(es: seq<Entry>) {
    forall e :: e in es ==> ValidKind(e.kind) && Readable(e)
  }

  /** The lines of all blocks, one blank line between two of them. */
  function AllBlockLines(es: seq<Entry>): seq<string> {
    if es == [] then []
    else if |es| == 1 then BlockLines(es[0])
    else BlockLines(es[0]) + [""] + AllBlockLines(es[1..])
  }

  /** An entry whose header lines survive printing and parsing, whatever its statement. */
  predicate HeadReadable(e: Entry) {
    ValidKind(e.kind) && KeyOk(e.key) && LeanOk(e.lean) && forall u :: u in e.uses ==> UseOk(u)
  }

  lemma ReadableSplit(es: seq<Entry>)
    requires es != [] && forall e :: e in es ==> HeadReadable(e)
    ensures Split(Join(Blocks(es), "\n\n"), '\n') == AllBlockLines(es)
  {
    forall e | e in es
      ensures HeadNewlineFree(e)
    {
      HeadIsNewlineFree(e);
    }
    hide HeadNewlineFree, HeadReadable;
    BlocksSplit(es);
  }

  lemma {:induction false} BlocksSplit(es: seq<Entry>)
    requires es != [] && forall e :: e in es ==> HeadNewlineFree(e)
    ensures Split(Join(Blocks(es), "\n\n"), '\n') == AllBlockLines(es)
  {
    assert es[0] in es;
    BlockSplits(es[0]);
    hide HeadNewlineFree;
    var b := RenderBlock(es[0]);
    if |es| == 1 {
      assert Blocks(es[1..]) == [];
      assert Blocks(es) == [b];
    } else {
      assert forall e :: e in es[1..] ==> e in es;
      BlocksSplit(es[1..]);
      assert Blocks(es)[1..] == Blocks(es[1..]);
      assert |Blocks(es[1..])| > 0 by { assert Blocks(es[1..]) != []; }
      var rest := Join(Blocks(es[1..]), "\n\n");
      assert Join(Blocks(es), "\n\n") == b + "\n" + ("" + "\n" + rest);
      SplitAppend(b, '\n', "" + "\n" + rest);
      SplitAppend("", '\n', rest);
      assert Split("", '\n') == [""];
      Assoc(BlockLines(es[0]), [""], AllBlockLines(es[1..]));
    }
  }

  lemma NodesCons(es: seq<Entry>)
    requires es != []
    ensures AsNodes(es) == [AsNode(es[0])] + AsNodes(es[1..])
  {
  }

  /** Reading a block and the blank line after it. */
  lemma BlockThenBlank(s: PState, e: Entry)
    requires !s.inFence && ValidKind(e.kind) && Readable(e)
    ensures var s' := Run(s, BlockLines(e) + [""]);
      Flush(s') == Flush(s) + [AsNode(e)] && !s'.inFence
  {
    BlockRuns(s, e);
    var s1 := Run(s, BlockLines(e));
    BlankLine(s1);
    RunConcat(s, BlockLines(e), [""]);
    RunOne(s1, "");
  }

  /** Reading the blocks adds exactly their nodes, in order. */
  lemma {:induction false} BlocksRun(s: PState, es: seq<Entry>)
    requires !s.inFence && AllReadable(es)
    ensures Flush(Run(s, AllBlockLines(es))) == Flush(s) + AsNodes(es)
    ensures !Run(s, AllBlockLines(es)).inFence
    decreases |es|
  {
    if es == [] {
      assert Flush(s) + AsNodes(es) == Flush(s);
    } else {
      var e := es[0];
      assert e in es;
      NodesCons(es);
      if |es| == 1 {
        BlockRuns(s, e);
        assert AsNodes(es) == [AsNode(e)];
      } else {
        BlockThenBlank(s, e);
        var s2 := Run(s, BlockLines(e) + [""]);
        assert AllReadable(es[1..]);
        BlocksRun(s2, es[1..]);
        RunConcat(s, BlockLines(e) + [""], AllBlockLines(es[1..]));
        Assoc(Flush(s), [AsNode(e)], AsNodes(es[1..]));
      }
    }
  }

  lemma BlankLine(s: PState)
    ensures Flush(Step(s, "")) == Flush(s) && Step(s, "").inFence == s.inFence
  {
    assert [""][0] == "" && Blank("");
    RunBlanks(s, [""]);
    RunOne(s, "");
  }

  /** The last statement gains the closing fence. */
  function CloseLast(nodes: seq<Node>): seq<Node> {
    if nodes == [] then []
    else Front(nodes) + [Last(nodes).(statement := Last(nodes).statement + "\n\n```")]
  }

  function Settle(nodes: seq<Node>, unclosed: bool): seq<Node> {
    if unclosed then CloseLast(nodes) else nodes
  }

  lemma JoinSolidEnd(lines: seq<string>, l: string)
    requires SolidEnd(l)
    ensures SolidEnd(Join(lines + [l], "\n"))
  {
    if lines == [] {
      assert lines + [l] == [l];
    } else {
      JoinAppend(lines, [l], "\n");
      assert Last(Join(lines, "\n") + "\n" + l) == Last(l);
    }
  }

  lemma SolidStrip(j: string) returns (a: string)
    requires SolidEnd(j)
    ensures Blank(a) && j == a + Strip(j) && SolidEnd(Strip(j)) && Trimmed(Strip(j))
  {
    assert RStrip(j) == j;
    a := LStripSplits(j);
    assert !Blank(j) by { assert !IsSpace(j[|j| - 1]); }
    assert Strip(j) != "" && Last(Strip(j)) == Last(j);
  }

  lemma ClosedStatement(lines: seq<string>, l: string)
    requires SolidEnd(l)
    ensures Strip(Join(lines + [l] + ["", "```", ""], "\n")) == Strip(Join(lines + [l], "\n")) + "\n\n```"
  {
    var j := Join(lines + [l], "\n");
    JoinSolidEnd(lines, l);
    JoinAppend(lines + [l], ["", "```", ""], "\n");
    assert Join(["", "```", ""], "\n") == "\n```\n" by {
      assert ["", "```", ""][1..] == ["```", ""] && ["```", ""][1..] == [""];
    }
    var a := SolidStrip(j);
    var m := Strip(j);
    assert j + "\n" + "\n```\n" == a + (m + "\n\n```") + "\n";
    StripFinds(a, m + "\n\n```", "\n");
  }

  /** Closing an open fence after a solid line: only the last statement changes. */
  lemma CloserRuns(s0: PState, l: string)
    requires SolidEnd(l) && Step(s0, l).inFence
    requires Step(s0, l).current.None? ==> Step(s0, l).nodes == []
    ensures var s := Run(Step(s0, l), ["", "```", ""]);
      Flush(s) == CloseLast(Flush(Step(s0, l))) && !s.inFence
  {
    var s := Step(s0, l);
    BlankIsOther("");
    assert LStrip("```") == "```" && IsFence("```");
    var t := Append(Append(Append(s, ""), "```").(inFence := false), "");
    assert Run(s, ["", "```", ""]) == t by {
      RunOne(s, "");
      RunOne(Step(s, ""), "```");
      RunOne(Step(Step(s, ""), "```"), "");
      RunConcat(s, [""], ["```"]);
      RunConcat(s, ["", "```"], [""]);
      assert [""] + ["```"] == ["", "```"] && ["", "```"] + [""] == ["", "```", ""];
    }
    if s.current.Some? {
      assert s.lines == s0.lines + [l];
      assert s.lines + [""] + ["```"] + [""] == s0.lines + [l] + ["", "```", ""];
      ClosedStatement(s0.lines, l);
      assert Front(Flush(s)) == s.nodes;
    }
  }

  /** What closes the old part: a blank line, and a fence before it when one is open. */
  function Separator(existing: string): seq<string> {
    if Closer(existing) == "" then [""] else ["", "```", ""]
  }

  lemma SplitBlankLine(a: string, b: string)
    ensures Split(a + "\n\n" + b, '\n') == Split(a, '\n') + [""] + Split(b, '\n')
  {
    assert a + "\n\n" + b == a + "\n" + ("" + "\n" + b);
    SplitAppend(a, '\n', "" + "\n" + b);
    SplitAppend("", '\n', b);
    assert Split("", '\n') == [""];
    Assoc(Split(a, '\n'), [""], Split(b, '\n'));
  }

  lemma SplitClosing(r: string, body: string)
    ensures Split(r + "\n\n" + "```\n\n" + body, '\n')
         == Split(r, '\n') + ["", "```", ""] + Split(body, '\n')
  {
    var fenced := r + "\n\n" + "```";
    assert r + "\n\n" + "```\n\n" + body == fenced + "\n\n" + body;
    SplitBlankLine(fenced, body);
    SplitBlankLine(r, "```");
    SplitFree("```", '\n');
  }

  /** The lines of the new document: the old text without its trailing whitespace, the separator, the blocks. */
  lemma NewTextLines(existing: string, es: seq<Entry>)
    ensures Lines(NewText(existing, es))
      == Split(RStrip(existing), '\n') + Separator(existing) + Split(Join(Blocks(es), "\n\n"), '\n')
  {
    var r, body := RStrip(existing), Join(Blocks(es), "\n\n");
    var text := r + "\n\n" + Closer(existing) + body;
    LinesTerminated(text);
    if Closer(existing) == "" {
      assert r + "\n\n" + "" == r + "\n\n";
      SplitBlankLine(r, body);
    } else {
      SplitClosing(r, body);
    }
  }

  /** The old nodes as the parser still sees them once trailing whitespace is cut off. */
  function CutNodes(existing: string): seq<Node> {
    Flush(Run(START, Split(RStrip(existing), '\n')))
  }

  predicate Unclosed(existing: string) {
    Run(START, Lines(existing)).inFence
  }

  lemma CloserIffUnclosed(existing: string)
    ensures Closer(existing) != "" <==> Unclosed(existing)
  {
    FenceParity(START, Lines(existing));
    assert |"```\n\n"| == 5;
  }

  lemma SeparatorRuns(existing: string)
    ensures var s := Run(Run(START, Split(RStrip(existing), '\n')), Separator(existing));
      Flush(s) == Settle(CutNodes(existing), Unclosed(existing)) && !s.inFence
  {
    CloserIffUnclosed(existing);
    TrailingSpace(existing);
    var r := RStrip(existing);
    var s := Run(START, Split(r, '\n'));
    if Closer(existing) == "" {
      BlankLine(s);
      RunOne(s, "");
    } else {
      var w := RStripSplits(existing);
      NodesNeedCurrent(START, Split(r, '\n'));
      if r == "" {
        BlankText(existing);
      } else {
        var head, l := Front(Split(r, '\n')), Last(Split(r, '\n'));
        LastLineSolid(r);
        assert Split(r, '\n') == head + [l];
        RunConcat(START, head, [l]);
        RunOne(Run(START, head), l);
        CloserRuns(Run(START, head), l);
      }
    }
  }

  /** The parser's state where the new sections begin. */
  function OldState(existing: string): PState {
    Run(Run(START, Split(RStrip(existing), '\n')), Separator(existing))
  }

  lemma NewTextRuns(existing: string, es: seq<Entry>)
    ensures ParseNodes(NewText(existing, es)) == Flush(Run(OldState(existing), Split(Join(Blocks(es), "\n\n"), '\n')))
    ensures Flush(OldState(existing)) == Settle(CutNodes(existing), Unclosed(existing)) && !OldState(existing).inFence
  {
    NewTextLines(existing, es);
    SeparatorRuns(existing);
    var a, sep := Split(RStrip(existing), '\n'), Separator(existing);
    RunConcat(START, a, sep);
    RunConcat(START, a + sep, Split(Join(Blocks(es), "\n\n"), '\n'));
  }

  /** What the parser reads from the new document. */
  lemma NewTextParses(existing: string, es: seq<Entry>)
    requires es != [] && AllReadable(es)
    ensures ParseNodes(NewText(existing, es)) == Settle(CutNodes(existing), Unclosed(existing)) + AsNodes(es)
  {
    assert forall e :: e in es ==> HeadReadable(e);
    NewTextRuns(existing, es);
    ReadableSplit(es);
    BlocksRun(OldState(existing), es);
  }

  /** The old nodes come back unchanged and in order, followed by exactly the new ones (with the
      closing fence added to the last old statement when one was open), if and only if the old
      text does not end in a heading with a blank key. */
  lemma RoundTrip(existing: string, es: seq<Entry>)
    requires es != [] && AllReadable(es)
    ensures ParseNodes(NewText(existing, es))
         == Settle(ParseNodes(existing), Unclosed(existing)) + AsNodes(es)
       <==> !EndsInBlankHeading(existing)
  {
    NewTextParses(existing, es);
    TrailingSpace(existing);
    if EndsInBlankHeading(existing) {
      assert |CutNodes(existing)| + 1 == |ParseNodes(existing)|;
      assert |Settle(CutNodes(existing), Unclosed(existing)) + AsNodes(es)| == |CutNodes(existing)| + |es|;
      assert |Settle(ParseNodes(existing), Unclosed(existing)) + AsNodes(es)| == |ParseNodes(existing)| + |es|;
    }
  }

  // ---------- the old nodes, whatever is appended ----------

  lemma {:induction false} SplitHead(s: string, k: nat)
    requires k <= |s| && forall i :: 0 <= i < k ==> s[i] != '\n'
    ensures |Split(s, '\n')[0]| >= k && Split(s, '\n')[0][..k] == s[..k]
    decreases k
  {
    if k > 0 {
      SplitHead(s[1..], k - 1);
      assert s[..k] == [s[0]] + s[1..][..k - 1];
    }
  }

  /** The first line that is appended: a heading, if the key does not begin with a newline. */
  lemma FirstAppended(es: seq<Entry>, k: nat)
    requires es != [] && 0 < k <= |es[0].key| && forall i :: 0 <= i < k ==> es[0].key[i] != '\n'
    ensures var l := Split(Join(Blocks(es), "\n\n"), '\n')[0];
      |l| >= k + 3 && l[..k + 3] == "## " + es[0].key[..k] && !IsFence(l) && HeadingKey(l).Some?
  {
    var e := es[0];
    var rest := HeadLines(e)[1..] + [e.statement];
    var body := Join(Blocks(es), "\n\n");
    assert HeadLines(e) + [e.statement] == ["## " + e.key] + rest;
    assert RenderBlock(e) == "## " + e.key + "\n" + Join(rest, "\n");
    assert RenderBlock(e) <= body;
    assert body[..k + 3] == "## " + e.key[..k];
    SplitHead(body, k + 3);
    var l := Split(body, '\n')[0];
    assert l[0] == l[..k + 3][0] && l[1] == l[..k + 3][1] && l[2] == l[..k + 3][2];
    assert l[..2] == "##";
  }

  /** Nodes that are complete stay, and an open node keeps its key. */
  lemma {:induction false} RunExtendsNodes(s: PState, lines: seq<string>)
    requires s.current.Some?
    ensures var nodes := Flush(Run(s, lines));
      s.nodes <= nodes && |nodes| > |s.nodes| && nodes[|s.nodes|].key == s.current.value.key
    decreases |lines|
  {
    if lines != [] {
      var s' := Step(s, lines[0]);
      RunExtendsNodes(s', lines[1..]);
      hide Run, IsFence, HeadingKey, HeaderOf;
      assert s'.nodes == s.nodes || s'.nodes == Flush(s);
    }
  }

  lemma AppendedOpensNode(existing: string, es: seq<Entry>, k: nat)
    requires es != [] && 0 < k <= |es[0].key| && forall i :: 0 <= i < k ==> es[0].key[i] != '\n'
    ensures var before := Settle(CutNodes(existing), Unclosed(existing));
      var nodes := ParseNodes(NewText(existing, es));
      before <= nodes && |nodes| > |before|
      && Some(nodes[|before|].key) == HeadingKey(Split(Join(Blocks(es), "\n\n"), '\n')[0])
  {
    NewTextRuns(existing, es);
    FirstAppended(es, k);
    var s, lines := OldState(existing), Split(Join(Blocks(es), "\n\n"), '\n');
    hide OldState, Blocks, Settle, NewText;
    RunExtendsNodes(Step(s, lines[0]), lines[1..]);
  }

  /** Whatever the entries say, the old nodes as they read without trailing whitespace come first in the new
      document, in order and unchanged up to the closing fence, if the first key does not begin with a newline. */
  lemma OldNodesStay(existing: string, es: seq<Entry>)
    requires es != [] && es[0].key != "" && es[0].key[0] != '\n'
    ensures Settle(CutNodes(existing), Unclosed(existing)) <= ParseNodes(NewText(existing, es))
  {
    AppendedOpensNode(existing, es, 1);
  }

  /** Whatever the entries say, every old node stays if and only if the old text does not end in a heading with
      a blank key: then exactly that node is lost. */
  lemma OldNodesStayIff(existing: string, es: seq<Entry>)
    requires es != [] && '\n' !in es[0].key && !Blank(es[0].key)
    ensures Settle(ParseNodes(existing), Unclosed(existing)) <= ParseNodes(NewText(existing, es))
      <==> !EndsInBlankHeading(existing)
  {
    var key := es[0].key;
    AppendedOpensNode(existing, es, |key|);
    TrailingSpace(existing);
    if EndsInBlankHeading(existing) {
      FirstKeyShows(es);
      var before, nodes := ParseNodes(existing), ParseNodes(NewText(existing, es));
      assert Settle(before, Unclosed(existing)) == before && |before| == |CutNodes(existing)| + 1;
      hide ParseNodes, NewText, CutNodes, HeadingKey, Blocks;
      assert before[|before| - 1].key == "" && nodes[|before| - 1].key != "";
    }
  }

  lemma FirstKeyShows(es: seq<Entry>)
    requires es != [] && '\n' !in es[0].key && !Blank(es[0].key)
    ensures var key := HeadingKey(Split(Join(Blocks(es), "\n\n"), '\n')[0]); key.Some? && key.value != ""
  {
    var key := es[0].key;
    FirstAppended(es, |key|);
    var l := Split(Join(Blocks(es), "\n\n"), '\n')[0];
    var i :| 0 <= i < |key| && !IsSpace(key[i]);
    assert l[i + 3] == l[..|key| + 3][i + 3] == key[i];
    assert l[2..][i + 1] == key[i];
    hide Blocks, Split;
    StripKeepsSolid(l[2..], i + 1);
  }

  /** A text that is one heading with a blank key: two hashes and two spaces. */
  const BLANK_HEADING: string := "##  "

  lemma BlankHeadingReads()
    ensures ParseNodes(BLANK_HEADING) == [BLANK_NODE] && EndsInBlankHeading(BLANK_HEADING)
  {
    var l := BLANK_HEADING;
    SplitFree(l, '\n');
    assert Lines(l) == [l];
    assert l[..2] == "##" && l[2..] == "  ";
    assert Blank(l[2..]) && HeadingKey(l) == Some("") by { BlankStripsAway("  "); }
    assert !Blank(l) by { assert !IsSpace(l[0]); }
    assert !IsFence(l);
    assert Front([l]) == [];
    RunOne(START, l);
    assert Strip(Join([], "\n")) == "";
  }

  /** Appending anything to that text loses its node. */
  lemma BlankHeadingIsLost(es: seq<Entry>)
    requires es != [] && '\n' !in es[0].key && !Blank(es[0].key)
    ensures ParseNodes(BLANK_HEADING) == [BLANK_NODE]
    ensures !(ParseNodes(BLANK_HEADING) <= ParseNodes(NewText(BLANK_HEADING, es)))
  {
    BlankHeadingReads();
    TrailingSpace(BLANK_HEADING);
    hide ParseNodes, EndsInBlankHeading, NewText;
    OldNodesStayIff(BLANK_HEADING, es);
  }
}
