/** Running the blueprint generator twice: which statements keep a name from being read back, so that
    the second run adds its section again. */
module BlueprintReruns {
  import opened Text
  import opened Blueprint
  import opened BlueprintBlocks
  import opened BlueprintDocument
  import opened BlueprintSeed

  // ---------- the names a run of lines leaves ----------

  /** None of the lines is a `- lean:` line. */
  ghost predicate NamesNothing(lines: seq<string>) {
    forall l :: l in lines && HeaderOf(l).Some? ==> HeaderOf(l).value.0 != LeanField
  }

  function NameOf(n: Node): set<string> {
    if n.lean.Some? && n.lean.value != "" then {n.lean.value} else {}
  }

  lemma LeansSnoc(nodes: seq<Node>, n: Node)
    ensures Leans(nodes + [n]) == Leans(nodes) + NameOf(n)
  {
    assert forall m :: m in nodes + [n] <==> m in nodes || m == n;
  }

  /** The names in a state: those of its finished nodes and of the open one. */
  lemma LeansFlush(s: PState)
    ensures Leans(Flush(s)) == Leans(s.nodes) + if s.current.Some? then NameOf(s.current.value) else {}
  {
    if s.current.Some? {
      LeansSnoc(s.nodes, s.current.value.(statement := Strip(Join(s.lines, "\n"))));
    }
  }

  lemma StepLeans(s: PState, line: string)
    requires HeaderOf(line).Some? ==> HeaderOf(line).value.0 != LeanField
    ensures Leans(Flush(Step(s, line))) == Leans(Flush(s))
  {
    LeansFlush(s);
    LeansFlush(Step(s, line));
    hide Leans, Flush, IsFence, HeadingKey, HeaderOf;
  }

  lemma {:induction false} RunLeans(s: PState, lines: seq<string>)
    requires NamesNothing(lines)
    ensures Leans(Flush(Run(s, lines))) == Leans(Flush(s))
    decreases |lines|
  {
    if lines != [] {
      assert lines[0] in lines;
      StepLeans(s, lines[0]);
      assert forall l :: l in lines[1..] ==> l in lines;
      hide Step, Leans, Flush, HeaderOf;
      RunLeans(Step(s, lines[0]), lines[1..]);
    }
  }

  /** Inside a fence, lines that are no fence only lengthen the statement. */
  lemma {:induction false} FencedRun(s: PState, lines: seq<string>)
    requires s.inFence && forall l :: l in lines ==> !IsFence(l)
    ensures Run(s, lines).inFence && Leans(Flush(Run(s, lines))) == Leans(Flush(s))
    decreases |lines|
  {
    if lines != [] {
      var s' := Step(s, lines[0]);
      assert lines[0] in lines;
      assert s' == Append(s, lines[0]);
      LeansFlush(s);
      LeansFlush(s');
      assert forall l :: l in lines[1..] ==> l in lines;
      hide Step, Leans, Flush, IsFence;
      FencedRun(s', lines[1..]);
    }
  }

  lemma HeadHasNoFence(e: Entry)
    requires HeadReadable(e)
    ensures forall l :: l in HeadLines(e) ==> !IsFence(l)
  {
    var j := Join(e.uses, ", ");
    var key, kind, lean, uses := "## " + e.key, "- kind: " + e.kind, "- lean: `" + e.lean + "`", "- uses: " + j;
    HeadingReads(e.key);
    NoFence("- kind: ", e.kind);
    NoFence("- lean: `", e.lean + "`");
    assert "- lean: `" + (e.lean + "`") == lean;
    NoFence("- uses: ", j);
    BlankIsOther("");
    hide IsFence, Join, HeadReadable;
    forall l | l in HeadLines(e)
      ensures l == key || l == kind || l == lean || l == uses || l == ""
    {
    }
  }

  lemma NoFence(prefix: string, value: string)
    requires prefix != "" && prefix[0] == '-'
    ensures !IsFence(prefix + value)
  {
    assert LStrip(prefix + value) == prefix + value;
  }

  predicate OddFences(e: Entry) {
    FenceCount(Split(e.statement, '\n')) % 2 == 1
  }

  /** Reading a block outside a fence adds its name, inside a fence nothing; its statement decides where it ends. */
  lemma BlockLeans(s: PState, e: Entry)
    requires HeadReadable(e) && NamesNothing(Split(e.statement, '\n'))
    ensures var s' := Run(s, BlockLines(e));
      && Leans(Flush(s')) == Leans(Flush(s)) + (if s.inFence then {} else {e.lean})
      && (s'.inFence <==> (s.inFence != OddFences(e)))
  {
    var h := Run(s, HeadLines(e));
    if s.inFence {
      HeadHasNoFence(e);
      FencedRun(s, HeadLines(e));
    } else {
      HeadRuns(s, e);
      LeanReads(e.lean);
      LeansFlush(h);
    }
    RunConcat(s, HeadLines(e), Split(e.statement, '\n'));
    hide HeadLines, Leans, Flush, Run, Split, FenceCount;
    RunLeans(h, Split(e.statement, '\n'));
    FenceParity(h, Split(e.statement, '\n'));
  }

  /** The names that reading the blocks adds. */
  function Added(es: seq<Entry>, inFence: bool): set<string> {
    if es == [] then {}
    else (if inFence then {} else {es[0].lean}) + Added(es[1..], inFence != OddFences(es[0]))
  }

  ghost predicate Quiet(es: seq<Entry>) {
    forall e :: e in es ==> HeadReadable(e) && NamesNothing(Split(e.statement, '\n'))
  }

  lemma BlankKeeps(s: PState)
    ensures Leans(Flush(Run(s, [""]))) == Leans(Flush(s)) && Run(s, [""]).inFence == s.inFence
  {
    BlankLine(s);
    RunOne(s, "");
  }

  lemma {:induction false} BlocksLeans(s: PState, es: seq<Entry>)
    requires Quiet(es)
    ensures Leans(Flush(Run(s, AllBlockLines(es)))) == Leans(Flush(s)) + Added(es, s.inFence)
    decreases |es|
  {
    if es != [] {
      assert es[0] in es;
      BlockLeans(s, es[0]);
      var s1 := Run(s, BlockLines(es[0]));
      if |es| > 1 {
        BlankKeeps(s1);
        RunConcat(s, BlockLines(es[0]), [""]);
        RunConcat(s, BlockLines(es[0]) + [""], AllBlockLines(es[1..]));
        assert forall e :: e in es[1..] ==> e in es;
        hide Leans, Flush, Run, BlockLines, OddFences, HeadReadable, NamesNothing;
        BlocksLeans(Run(s1, [""]), es[1..]);
      } else {
        assert Added(es[1..], s.inFence != OddFences(es[0])) == {};
      }
    }
  }

  // ---------- exactly when all names are added ----------

  ghost predicate DistinctNames(es: seq<Entry>) {
    forall i, j :: 0 <= i < j < |es| ==> es[i].lean != es[j].lean
  }

  lemma {:induction false} AddedWithin(es: seq<Entry>, inFence: bool)
    ensures forall name :: name in Added(es, inFence) ==> exists e :: e in es && e.lean == name
    decreases |es|
  {
    if es != [] {
      AddedWithin(es[1..], inFence != OddFences(es[0]));
      assert es[0] in es && forall e :: e in es[1..] ==> e in es;
    }
  }

  /** Every section but the last closes the fences it opens. */
  ghost predicate FencesClose(es: seq<Entry>) {
    forall i :: 0 <= i < |es| - 1 ==> !OddFences(es[i])
  }

  ghost predicate AllAdded(es: seq<Entry>) {
    forall e :: e in es ==> e.lean in Added(es, false)
  }

  lemma DistinctTail(es: seq<Entry>)
    requires es != [] && DistinctNames(es)
    ensures DistinctNames(es[1..]) && forall e :: e in es[1..] ==> e.lean != es[0].lean
  {
  }

  lemma FencesCloseTail(es: seq<Entry>)
    requires |es| > 1
    ensures FencesClose(es) <==> !OddFences(es[0]) && FencesClose(es[1..])
  {
    var rest := es[1..];
    hide OddFences;
    if !OddFences(es[0]) && FencesClose(rest) {
      forall i | 0 <= i < |es| - 1
        ensures !OddFences(es[i])
      {
        assert i > 0 ==> es[i] == rest[i - 1];
      }
    }
    if FencesClose(es) {
      forall i | 0 <= i < |rest| - 1
        ensures !OddFences(rest[i])
      {
        assert rest[i] == es[i + 1];
      }
    }
  }

  lemma {:induction false} AllAddedIff(es: seq<Entry>)
    requires DistinctNames(es)
    ensures AllAdded(es) <==> FencesClose(es)
    decreases |es|
  {
    if |es| > 1 {
      var rest := es[1..];
      DistinctTail(es);
      assert es[0] in es && rest[0] in rest && forall e :: e in es <==> e == es[0] || e in rest;
      assert forall i :: 0 <= i < |rest| ==> rest[i] == es[i + 1];
      hide OddFences;
      if OddFences(es[0]) {
        SwallowedIsMissing(rest);
        assert !(rest[0].lean in Added(es, false));
      } else {
        AllAddedIff(rest);
        assert Added(es, false) == {es[0].lean} + Added(rest, false);
        FencesCloseTail(es);
      }
    }
  }

  /** A section that begins inside a fence adds no name, and no later one adds it. */
  lemma SwallowedIsMissing(es: seq<Entry>)
    requires es != [] && DistinctNames(es)
    ensures es[0].lean !in Added(es, true)
  {
    DistinctTail(es);
    AddedWithin(es[1..], true != OddFences(es[0]));
  }

  // ---------- the names a text leaves ----------

  /** The name a `- lean:` line gives its section, absent when it is blank. */
  function LeanValue(line: string): Option<Option<string>> {
    var h := HeaderOf(line);
    if h.Some? && h.value.0 == LeanField then Some(NonEmpty(StripInlineCode(h.value.1))) else None
  }

  function AsSet(name: Option<string>): set<string> {
    if name.Some? && name.value != "" then {name.value} else {}
  }

  /** The name of a section: that of its last `- lean:` line outside fences, else the given one. */
  function NameOver(lines: seq<string>, inFence: bool, name: Option<string>): Option<string> {
    if lines == [] then name
    else
      var l, rest := lines[0], lines[1..];
      if IsFence(l) then NameOver(rest, !inFence, name)
      else if inFence then NameOver(rest, true, name)
      else if HeadingKey(l).Some? then name
      else if LeanValue(l).Some? then NameOver(rest, false, LeanValue(l).value)
      else NameOver(rest, false, name)
  }

  /** The names of the sections that headings outside fences open. */
  function NamesIn(lines: seq<string>, inFence: bool): set<string> {
    if lines == [] then {}
    else
      var l, rest := lines[0], lines[1..];
      if IsFence(l) then NamesIn(rest, !inFence)
      else if inFence then NamesIn(rest, true)
      else if HeadingKey(l).Some? then AsSet(NameOver(rest, false, None)) + NamesIn(rest, false)
      else NamesIn(rest, false)
  }

  function OpenName(s: PState, lines: seq<string>): set<string> {
    if s.current.Some? then AsSet(NameOver(lines, s.inFence, s.current.value.lean)) else {}
  }

  lemma StepNames(s: PState, lines: seq<string>)
    requires lines != []
    ensures var s' := Step(s, lines[0]);
      Leans(s.nodes) + OpenName(s, lines) + NamesIn(lines, s.inFence)
        == Leans(s'.nodes) + OpenName(s', lines[1..]) + NamesIn(lines[1..], s'.inFence)
  {
    LeansFlush(s);
    hide Leans, IsFence, HeadingKey, HeaderOf, StripInlineCode;
  }

  /** The names read from a text are those of its finished sections, of the open one, and of the sections that
      its lines open. */
  lemma {:induction false} RunNames(s: PState, lines: seq<string>)
    ensures Leans(Flush(Run(s, lines))) == Leans(s.nodes) + OpenName(s, lines) + NamesIn(lines, s.inFence)
    decreases |lines|
  {
    if lines == [] {
      LeansFlush(s);
    } else {
      StepNames(s, lines);
      hide Step, Leans, OpenName, NamesIn, Flush;
      RunNames(Step(s, lines[0]), lines[1..]);
    }
  }

  // ---------- the second run ----------

  lemma OldLeans(existing: string)
    ensures Leans(Flush(OldState(existing))) == Leans(ParseNodes(existing))
  {
    NewTextRuns(existing, []);
    OldPartSurvives(existing);
    var kept, now := KeptNodes(existing), OldPart(existing);
    LeansAlike(kept, now);
    LeansAlike(now, kept);
    if kept != ParseNodes(existing) {
      LeansSnoc(kept, BLANK_NODE);
    }
  }

  /** The lines the generator appends. */
  function Sections(es: seq<Entry>): seq<string> {
    Split(Join(Blocks(es), "\n\n"), '\n')
  }

  /** From a state outside fences, lines that begin with a heading add the names they hold. */
  lemma HeadingNames(s: PState, lines: seq<string>)
    requires !s.inFence && lines != [] && !IsFence(lines[0]) && HeadingKey(lines[0]).Some?
    ensures Leans(Flush(Run(s, lines))) == Leans(Flush(s)) + NamesIn(lines, false)
  {
    LeansFlush(s);
    RunNames(s, lines);
    hide Leans, Run, Flush, NamesIn;
  }

  lemma NewTextLeans(existing: string, es: seq<Entry>)
    requires es != [] && es[0].key != "" && es[0].key[0] != '\n'
    ensures Leans(ParseNodes(NewText(existing, es))) == Leans(ParseNodes(existing)) + NamesIn(Sections(es), false)
  {
    NewTextRuns(existing, es);
    OldLeans(existing);
    FirstAppended(es, 1);
    hide Leans, OldState, ParseNodes, Blocks, NewText, IsFence, HeadingKey, Flush, Run, NamesIn;
    HeadingNames(OldState(existing), Sections(es));
  }

  lemma LeansAfter(existing: string, arts: seq<Artifact>)
    requires var es := Entries(existing, arts); es != [] && es[0].key != "" && es[0].key[0] != '\n'
    ensures Leans(ParseNodes(Generated(existing, arts)))
      == Leans(ParseNodes(existing)) + NamesIn(Sections(Entries(existing, arts)), false)
  {
    hide Entries, Leans, ParseNodes, NewText, NamesIn, Sections;
    NewTextLeans(existing, Entries(existing, arts));
  }

  lemma QuietLeansAfter(existing: string, arts: seq<Artifact>)
    requires Entries(existing, arts) != [] && Quiet(Entries(existing, arts))
    ensures Leans(ParseNodes(Generated(existing, arts)))
      == Leans(ParseNodes(existing)) + Added(Entries(existing, arts), false)
  {
    var es := Entries(existing, arts);
    NewTextRuns(existing, es);
    ReadableSplit(es);
    OldLeans(existing);
    hide Leans, OldState, Added, Entries, ParseNodes, Blocks;
    BlocksLeans(OldState(existing), es);
  }

  lemma EntryIsNew(existing: string, arts: seq<Artifact>, e: Entry) returns (a: Artifact)
    requires e in Entries(existing, arts)
    ensures a in arts && a.name == e.lean && !Skipped(a, Leans(ParseNodes(existing)))
  {
    var es, cs, nodes := Entries(existing, arts), Candidates(existing, arts), ParseNodes(existing);
    var i :| 0 <= i < |es| && es[i] == e;
    CandidatesComeFrom(arts, Leans(nodes), KeySet(nodes), cs[i]);
    a :| a in arts && !Skipped(a, Leans(nodes)) && cs[i].lean == a.name && cs[i].short == Short(a.name)
      && cs[i].statement == StatementFor(a) && cs[i].span == a.span && cs[i].kind == KindFor(a.keyword, a.kind);
  }

  lemma ArtifactHasEntry(existing: string, arts: seq<Artifact>, a: Artifact)
    requires a in arts && !Skipped(a, Leans(ParseNodes(existing)))
    ensures exists e :: e in Entries(existing, arts) && e.lean == a.name
  {
    var es, cs, nodes := Entries(existing, arts), Candidates(existing, arts), ParseNodes(existing);
    CandidatesCover(arts, Leans(nodes), KeySet(nodes), a);
    var i :| 0 <= i < |cs| && cs[i].lean == a.name;
    assert es[i] in es && es[i].lean == a.name;
  }

  /** A second run adds nothing if and only if every new name is what the last `- lean:` line outside fences of
      some appended section says; the first new key only must not begin with a newline. */
  lemma SecondRunAddsNothingIff(existing: string, arts: seq<Artifact>)
    requires var es := Entries(existing, arts); es != [] ==> es[0].key != "" && es[0].key[0] != '\n'
    ensures var es := Entries(existing, arts);
      Candidates(Generated(existing, arts), arts) == [] <==>
        forall e :: e in es ==> e.lean in NamesIn(Sections(es), false)
  {
    var es := Entries(existing, arts);
    if es != [] {
      LeansAfter(existing, arts);
      SkippedIffNamed(existing, arts, NamesIn(Sections(es), false));
    } else {
      SecondRunAddsNothing(existing, arts);
    }
  }

  /** For readable header lines and statements without `- lean:` lines: if and only if every name has a section
      outside all fences; for distinct names, if and only if every generated section but the last has an even
      number of fence lines. */
  lemma QuietSecondRunIff(existing: string, arts: seq<Artifact>)
    requires Quiet(Entries(existing, arts))
    ensures Candidates(Generated(existing, arts), arts) == [] <==> AllAdded(Entries(existing, arts))
    ensures DistinctNames(Entries(existing, arts)) ==>
      (Candidates(Generated(existing, arts), arts) == [] <==> FencesClose(Entries(existing, arts)))
  {
    var es := Entries(existing, arts);
    if es != [] {
      QuietLeansAfter(existing, arts);
      SkippedIffNamed(existing, arts, Added(es, false));
      if DistinctNames(es) {
        AllAddedIff(es);
      }
    } else {
      SecondRunAddsNothing(existing, arts);
    }
  }

  lemma SkippedIffNamed(existing: string, arts: seq<Artifact>, names: set<string>)
    requires Leans(ParseNodes(Generated(existing, arts))) == Leans(ParseNodes(existing)) + names
    ensures Candidates(Generated(existing, arts), arts) == [] <==>
      forall e :: e in Entries(existing, arts) ==> e.lean in names
  {
    var es, before := Entries(existing, arts), ParseNodes(existing);
    var now := ParseNodes(Generated(existing, arts));
    hide Entries, ParseNodes, Generated, Leans;
    if forall e :: e in es ==> e.lean in names {
      forall a | a in arts
        ensures Skipped(a, Leans(now))
      {
        if !Skipped(a, Leans(before)) {
          ArtifactHasEntry(existing, arts, a);
        }
      }
      NothingLeft(arts, Leans(now), KeySet(now));
    }
    if Candidates(Generated(existing, arts), arts) == [] {
      forall e | e in es
        ensures e.lean in names
      {
        var a := EntryIsNew(existing, arts, e);
        if !Skipped(a, Leans(now)) {
          CandidatesCover(arts, Leans(now), KeySet(now), a);
        }
      }
    }
  }

  // ---------- a run that is not repeated silently ----------

  const COMMENTED: seq<string> := ["/-", "```-/ : True"]

  /** A declaration header with a comment over two lines, the second of which begins with a fence. */
  const HEADER: string := "\n" + Join(COMMENTED, "\n")

  /** Two theorems with that header. */
  const TWINS: seq<Artifact> := [
    Artifact("a", Some("theorem"), "theorem a" + HEADER + ":= trivial", HEADER, ""),
    Artifact("b", Some("theorem"), "theorem b" + HEADER + ":= trivial", HEADER, "")]

  lemma CommentedLines()
    ensures Split(Join(COMMENTED, "\n"), '\n') == COMMENTED
    ensures NamesNothing(COMMENTED) && FenceCount(COMMENTED) == 1
  {
    assert '\n' !in "/-" && '\n' !in "```-/ : True";
    SplitJoin(COMMENTED, '\n');
    assert COMMENTED[0] == "/-" && COMMENTED[1] == "```-/ : True";
    assert HeaderOf(COMMENTED[0]) == None && HeaderOf(COMMENTED[1]) == None;
    assert COMMENTED[1][..3] == "```";
    assert IsFence(COMMENTED[1]) && !IsFence(COMMENTED[0]) by { assert "/-"[0] != "```"[0]; }
    assert COMMENTED[1..] == [COMMENTED[1]] && COMMENTED[2..] == [];
    assert COMMENTED[1..][1..] == [];
  }

  lemma HeaderStays()
    ensures Signature(HEADER) == Join(COMMENTED, "\n") != ""
  {
    CommentedLines();
    var text := Join(COMMENTED, "\n");
    SplitAppend("", '\n', text);
    assert "" + ['\n'] + text == HEADER;
    var lines := Lines(HEADER);
    assert lines == ["", "/-", "```-/ : True"];
    assert RStrip("/-") == "/-" by { assert "/-"[1] == '-'; }
    assert RStrip("```-/ : True") == "```-/ : True" by { assert "```-/ : True"[11] == 'e'; }
    assert RStripAll(lines) == lines;
    assert DropEmptyFront(lines) == COMMENTED;
    assert DropEmptyBack(COMMENTED) == COMMENTED;
  }

  lemma EmptyHasNoNodes()
    ensures ParseNodes("") == [] && Leans([]) == {} && KeySet([]) == {}
  {
    assert Lines("") == [];
  }

  lemma OneCandidate(a: Artifact, taken: set<string>)
    requires a.name != ""
    ensures CandidatesFrom([a], {}, taken) == [CandidateFor(a, taken)]
  {
    assert [a][1..] == [] && CandidatesFrom([], {}, taken + {CandidateFor(a, taken).key}) == [];
    hide CandidateFor;
  }

  lemma TwoCandidates(a: Artifact, b: Artifact)
    requires a.name != "" && b.name != ""
    ensures var c := CandidateFor(a, {});
      CandidatesFrom([a, b], {}, {}) == [c, CandidateFor(b, {c.key})]
  {
    assert [a, b][1..] == [b];
    var c := CandidateFor(a, {});
    assert {} + {c.key} == {c.key};
    OneCandidate(b, {c.key});
    hide CandidateFor;
  }

  lemma TwinCandidates()
    ensures var cs := Candidates("", TWINS);
      |cs| == 2 && cs[0] == CandidateFor(TWINS[0], {}) && cs[1] == CandidateFor(TWINS[1], {cs[0].key})
  {
    EmptyHasNoNodes();
    TwoCandidates(TWINS[0], TWINS[1]);
    hide CandidateFor, ParseNodes, Leans, KeySet, CandidatesFrom;
  }

  lemma TwinStatement(a: Artifact, taken: set<string>)
    requires a.header == HEADER && PlainName(a.name)
    ensures var c := CandidateFor(a, taken);
      c.statement == Join(COMMENTED, "\n") && c.lean == a.name && KeyOk(c.key) && UseOk(c.key) && LeanOk(c.lean)
  {
    HeaderStays();
    PlainKey(a.name, taken);
    hide Signature, FreshKey, Short, LeanOk, KeyOk, UseOk, PlainName;
  }

  lemma TwinEntries()
    ensures var es := Entries("", TWINS);
      && |es| == 2 && es[0].lean == "a" && es[1].lean == "b"
      && forall e :: e in es ==> (KeyOk(e.key) && UseOk(e.key) && LeanOk(e.lean) && ValidKind(e.kind)
           && e.statement == Join(COMMENTED, "\n"))
  {
    TwinCandidates();
    var cs := Candidates("", TWINS);
    TwinStatement(TWINS[0], {});
    TwinStatement(TWINS[1], {cs[0].key});
    assert ValidKind(cs[0].kind) && ValidKind(cs[1].kind);
    hide CandidateFor, Candidates, KeyOk, UseOk, LeanOk, EdgesFrom;
  }

  lemma TwinUses()
    ensures forall e :: e in Entries("", TWINS) ==> forall u :: u in e.uses ==> UseOk(u)
  {
    TwinEntries();
    EmptyHasNoNodes();
    EdgesResolve("", TWINS);
    hide Entries, ParseNodes, KeyOk, UseOk, LeanOk;
  }

  lemma TwinsAreQuiet()
    ensures var es := Entries("", TWINS);
      |es| == 2 && Quiet(es) && DistinctNames(es) && !FencesClose(es)
  {
    TwinEntries();
    TwinUses();
    CommentedLines();
    var es := Entries("", TWINS);
    assert es[0] in es && OddFences(es[0]);
    hide Entries, ParseNodes, OddFences, NamesNothing, KeyOk, UseOk, LeanOk;
  }

  /** The comment opens a fence that swallows the second theorem's section: a second run adds it again. */
  lemma SecondRunAddsAgain()
    ensures Candidates(Generated("", TWINS), TWINS) != []
  {
    TwinsAreQuiet();
    QuietSecondRunIff("", TWINS);
  }
}
