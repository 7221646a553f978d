/** Exactly which appended sections come back: a document reads back what was printed if and only if
    the sections have the readable shape. */
module BlueprintReadback {
  import opened Text
  import opened Blueprint
  import opened BlueprintRules
  import opened BlueprintBlocks
  import opened BlueprintDocument
  import opened BlueprintSeed
  import opened BlueprintReruns

  // ---------- what a section keeps of its lines ----------

  /** No heading or header line outside a fence; a fence may stay open. */
  predicate Steady(lines: seq<string>, inFence: bool) {
    if lines == [] then true
    else if IsFence(lines[0]) then Steady(lines[1..], !inFence)
    else (inFence || (HeadingKey(lines[0]) == None && HeaderOf(lines[0]) == None)) && Steady(lines[1..], inFence)
  }

  /** No header line outside a fence. */
  predicate HeaderFree(lines: seq<string>, inFence: bool) {
    if lines == [] then true
    else if IsFence(lines[0]) then HeaderFree(lines[1..], !inFence)
    else (inFence || HeaderOf(lines[0]) == None) && HeaderFree(lines[1..], inFence)
  }

  function FenceAfter(lines: seq<string>, inFence: bool): bool {
    inFence != (FenceCount(lines) % 2 == 1)
  }

  lemma {:induction false} InertIffSteady(lines: seq<string>, inFence: bool)
    ensures Inert(lines, inFence) <==> Steady(lines, inFence) && !FenceAfter(lines, inFence)
    decreases |lines|
  {
    if lines != [] {
      InertIffSteady(lines[1..], if IsFence(lines[0]) then !inFence else inFence);
    }
  }

  lemma {:induction false} SteadyRuns(s: PState, lines: seq<string>)
    requires s.current.Some? && Steady(lines, s.inFence)
    ensures Run(s, lines) == s.(lines := s.lines + lines, inFence := FenceAfter(lines, s.inFence))
    decreases |lines|
  {
    if lines == [] {
      assert s.lines + [] == s.lines;
    } else {
      SteadyRuns(Step(s, lines[0]), lines[1..]);
      Assoc(s.lines, [lines[0]], lines[1..]);
      assert [lines[0]] + lines[1..] == lines;
    }
  }

  /** The statement the open section ends up with, whatever follows. */
  lemma {:induction false} FirstStatement(s: PState, lines: seq<string>)
    requires s.current.Some?
    ensures var nodes := Flush(Run(s, lines));
      && |nodes| > |s.nodes|
      && nodes[|s.nodes|].statement == Strip(Join(s.lines + Keep(lines, s.inFence), "\n"))
    decreases |lines|
  {
    if lines == [] {
      assert s.lines + [] == s.lines;
    } else {
      var l, s' := lines[0], Step(s, lines[0]);
      if !IsFence(l) && !s.inFence && HeadingKey(l).Some? {
        RunExtendsNodes(s', lines[1..]);
        assert s.lines + [] == s.lines;
        assert Flush(s)[|s.nodes|] == Flush(Run(s', lines[1..]))[|s.nodes|];
      } else {
        FirstStatement(s', lines[1..]);
        Assoc(s.lines, [l], Keep(lines[1..], s'.inFence));
      }
    }
  }

  lemma {:induction false} KeepMembers(lines: seq<string>, inFence: bool)
    ensures forall l :: l in Keep(lines, inFence) ==> l in lines
    ensures HeaderFree(Keep(lines, inFence), inFence)
    decreases |lines|
  {
    if lines != [] {
      KeepMembers(lines[1..], if IsFence(lines[0]) then !inFence else inFence);
      assert lines[0] in lines && forall l :: l in lines[1..] ==> l in lines;
    }
  }

  // ---------- trimming keeps lines free of headers ----------

  lemma {:induction false} HeaderFreePrefix(a: seq<string>, b: seq<string>, inFence: bool)
    requires HeaderFree(a + b, inFence)
    ensures HeaderFree(a, inFence)
    decreases |a|
  {
    if a != [] {
      assert (a + b)[1..] == a[1..] + b;
      HeaderFreePrefix(a[1..], b, if IsFence(a[0]) then !inFence else inFence);
    }
  }

  lemma {:induction false} HeaderFreeTail(a: seq<string>, l: string, w: string, inFence: bool)
    requires HeaderFree(a + [l + w], inFence) && SolidEnd(l) && Blank(w)
    ensures HeaderFree(a + [l], inFence)
    decreases |a|
  {
    if a == [] {
      FenceTail(l, w);
      HeaderTail(l, w);
      assert a + [l] == [l] && a + [l + w] == [l + w] && [l][1..] == [] && [l + w][1..] == [];
    } else {
      assert (a + [l])[1..] == a[1..] + [l] && (a + [l + w])[1..] == a[1..] + [l + w];
      HeaderFreeTail(a[1..], l, w, if IsFence(a[0]) then !inFence else inFence);
    }
  }

  lemma {:induction false} HeaderFreeLeft(a: string, m: string)
    requires Blank(a) && HeaderFree(Split(a + m, '\n'), false)
    ensures HeaderFree(Split(m, '\n'), false)
  {
    if a == "" {
      assert a + m == m;
    } else {
      assert (a + m)[1..] == a[1..] + m;
      var rest := Split(a[1..] + m, '\n');
      assert IsSpace(a[0]);
      if a[0] == '\n' {
        assert ([""] + rest)[1..] == rest;
      } else {
        var l := [a[0]] + rest[0];
        assert l[1..] == rest[0] && LStrip(l) == LStrip(rest[0]);
        assert IsFence(l) == IsFence(rest[0]) && HeaderOf(l) == HeaderOf(rest[0]);
        assert ([l] + rest[1..])[1..] == rest[1..];
      }
      HeaderFreeLeft(a[1..], m);
    }
  }

  lemma HeaderFreeCut(head: seq<string>, l: string, w: string, more: seq<string>)
    requires HeaderFree(head + [l + w] + more, false) && SolidEnd(l) && Blank(w)
    ensures HeaderFree(head + [l], false)
  {
    HeaderFreePrefix(head + [l + w], more, false);
    HeaderFreeTail(head, l, w, false);
  }

  lemma HeaderFreeRight(m: string, b: string)
    requires Blank(b) && HeaderFree(Split(m + b, '\n'), false) && SolidEnd(m)
    ensures HeaderFree(Split(m, '\n'), false)
  {
    var w, more := SplitWithTail(m, b);
    LastLineSolid(m);
    var lines, all := Split(m, '\n'), Split(m + b, '\n');
    hide Split, HeaderFree, SolidEnd, Blank;
    assert all == Front(lines) + [Last(lines) + w] + more;
    HeaderFreeCut(Front(lines), Last(lines), w, more);
    assert Front(lines) + [Last(lines)] == lines;
  }

  lemma TrimmedHeaderFree(lines: seq<string>)
    requires lines != [] && HeaderFree(lines, false) && forall l :: l in lines ==> '\n' !in l
    ensures HeaderFree(Split(Strip(Join(lines, "\n")), '\n'), false)
  {
    var text := Join(lines, "\n");
    var m := Strip(text);
    var a, b := StripSplits(text);
    assert m == "" || SolidEnd(m);
    assert HeaderFree([""], false) by { assert HeaderOf("") == None && [""][1..] == []; }
    assert Split("", '\n') == [""];
    SplitJoin(lines, '\n');
    assert text == a + (m + b);
    hide Split, Join, Strip, HeaderFree, Blank, SolidEnd;
    HeaderFreeLeft(a, m + b);
    if m != "" {
      HeaderFreeRight(m, b);
    }
  }

  // ---------- a statement that comes back is steady ----------

  lemma {:induction false} SteadyOrShort(lines: seq<string>, more: seq<string>, inFence: bool)
    requires HeaderFree(lines, inFence)
    ensures Steady(lines, inFence) ==> Keep(lines + more, inFence) == lines + Keep(more, FenceAfter(lines, inFence))
    ensures !Steady(lines, inFence) ==> TextLen(Keep(lines + more, inFence)) < TextLen(lines)
    decreases |lines|
  {
    if lines == [] {
      assert lines + more == more;
      assert lines + Keep(more, inFence) == Keep(more, inFence);
    } else {
      var l, rest := lines[0], lines[1..];
      var after := if IsFence(l) then !inFence else inFence;
      assert (lines + more)[1..] == rest + more;
      SteadyOrShort(rest, more, after);
      var k := Keep(rest + more, after);
      assert ([l] + k)[1..] == k;
      assert [l] + rest == lines;
      Assoc([l], rest, Keep(more, FenceAfter(rest, after)));
    }
  }

  /** If a section's statement comes back, it has no heading or header line outside its fences. */
  lemma StatementSteady(statement: string, more: seq<string>)
    requires forall l :: l in more ==> '\n' !in l
    requires Strip(Join([""] + Keep(Split(statement, '\n') + more, false), "\n")) == statement
    ensures Trimmed(statement) && Steady(Split(statement, '\n'), false)
  {
    var st := Split(statement, '\n');
    var kept := Keep(st + more, false);
    SplitPartsFree(statement, '\n');
    KeepMembers(st + more, false);
    assert ([""] + kept)[1..] == kept && HeaderOf("") == None && !IsFence("");
    assert HeaderFree([""] + kept, false);
    TrimmedHeaderFree([""] + kept);
    var _, _ := StripSplits(Join([""] + kept, "\n"));
    SteadyOrShort(st, more, false);
    assert Steady([""], false) by { assert HeadingKey("") == None && [""][1..] == []; }
    if statement != "" && !Steady(st, false) {
      ShortStatement([""] + kept, statement);
    }
  }

  /** A trimmed text stands only once between whitespace. */
  lemma MiddleEnds(a: string, m: string, b: string, x: string)
    requires Blank(a) && m != "" && Trimmed(m) && a + m + b == "\n" + m + x
    ensures b == x
  {
    var text := a + m + b;
    assert text[0] == '\n' && text[1] == m[0];
    assert forall i :: 0 <= i < |a| ==> text[i] == a[i];
    assert (m + b)[0] == m[0] && text == a + (m + b);
    assert a == "" ==> a + (m + b) == m + b;
    assert text[1 + |m|..] == b && ("\n" + m + x)[1 + |m|..] == x;
  }

  /** With a fence left open, a following section's heading would be part of the statement. */
  lemma SwallowedShows(statement: string, heading: string, more: seq<string>)
    requires statement != "" && Trimmed(statement) && heading != "" && !IsSpace(heading[0])
    ensures Strip(Join([""] + Split(statement, '\n') + ["", heading] + more, "\n")) != statement
  {
    var st, rest := Split(statement, '\n'), ["", heading] + more;
    JoinSplit(statement, '\n');
    JoinAppend([""] + st, rest, "\n");
    JoinAppend([""], st, "\n");
    assert [""] + st + ["", heading] + more == [""] + st + rest;
    assert rest[1..] == [heading] + more;
    var tail := Join([heading] + more, "\n");
    var x := "\n" + ("\n" + tail);
    assert tail[0] == heading[0] && x[2] == tail[0] && !Blank(x);
    var text := Join([""] + st + rest, "\n");
    assert text == "\n" + statement + x;
    var a, b := StripSplits(text);
    hide Join, Split, Strip;
    if Strip(text) == statement {
      MiddleEnds(a, statement, b, x);
    }
  }

  // ---------- exactly the readable sections come back ----------

  /** An entry with the readable shape, but for a fence its statement may leave open. */
  predicate ShapeOk(e: Entry) {
    && KeyOk(e.key)
    && LeanOk(e.lean)
    && (forall u :: u in e.uses ==> UseOk(u))
    && Trimmed(e.statement)
    && Steady(Split(e.statement, '\n'), false)
  }

  /** Every entry has the shape, and only the last may leave a fence open. */
  ghost predicate SectionsReadable(es: seq<Entry>) {
    (forall e :: e in es ==> ShapeOk(e)) && FencesClose(es)
  }

  /** What a header needs to be read at all. */
  ghost predicate HeadOk(e: Entry) {
    && KeyOk(e.key) && ValidKind(e.kind)
    && e.lean != "" && '\n' !in e.lean
    && (forall u :: u in e.uses ==> UseOk(u))
  }

  lemma ClosedIsReadable(e: Entry)
    ensures Readable(e) <==> ShapeOk(e) && !OddFences(e)
  {
    InertIffSteady(Split(e.statement, '\n'), false);
  }

  /** The state after a block of the shape. */
  lemma SteadyBlock(s: PState, e: Entry)
    requires !s.inFence && HeadOk(e) && Steady(Split(e.statement, '\n'), false)
    ensures var s' := Run(s, BlockLines(e));
      && s' == HeadState(Flush(s), e).(lines := [""] + Split(e.statement, '\n'), inFence := OddFences(e))
      && (Trimmed(e.statement) ==> Flush(s') == Flush(s) + [AsNode(e).(lean := LeanRead(e))])
  {
    HeadRuns(s, e);
    RunConcat(s, HeadLines(e), Split(e.statement, '\n'));
    SteadyRuns(HeadState(Flush(s), e), Split(e.statement, '\n'));
    StatementReads(e.statement);
    if Trimmed(e.statement) {
      StripFinds("", e.statement, "");
      assert "" + e.statement + "" == e.statement;
    }
    hide Run, BlockLines, Steady, HeadLines, LeanRead, Split, Join, Strip, OddFences;
  }

  lemma LastBlockRuns(s: PState, e: Entry)
    requires !s.inFence && ValidKind(e.kind) && ShapeOk(e)
    ensures Flush(Run(s, BlockLines(e))) == Flush(s) + [AsNode(e)]
  {
    SteadyBlock(s, e);
    LeanReads(e.lean);
  }

  lemma {:induction false} SectionsRun(s: PState, es: seq<Entry>)
    requires !s.inFence && es != [] && SectionsReadable(es) && forall e :: e in es ==> ValidKind(e.kind)
    ensures Flush(Run(s, AllBlockLines(es))) == Flush(s) + AsNodes(es)
    decreases |es|
  {
    var e, rest := es[0], es[1..];
    assert e in es;
    NodesCons(es);
    if rest == [] {
      LastBlockRuns(s, e);
      assert AsNodes(rest) == [];
    } else {
      ClosedIsReadable(e);
      FencesCloseTail(es);
      BlockThenBlank(s, e);
      assert forall d :: d in rest ==> d in es;
      RunConcat(s, BlockLines(e) + [""], AllBlockLines(rest));
      hide ShapeOk, OddFences, Readable, Run, BlockLines, Flush;
      SectionsRun(Run(s, BlockLines(e) + [""]), rest);
      Assoc(Flush(s), [AsNode(e)], AsNodes(rest));
    }
  }

  lemma {:induction false} SectionLinesFree(es: seq<Entry>)
    requires forall e :: e in es ==> HeadNewlineFree(e)
    ensures forall l :: l in AllBlockLines(es) ==> '\n' !in l
    decreases |es|
  {
    if es != [] {
      assert es[0] in es;
      SplitPartsFree(es[0].statement, '\n');
      if |es| > 1 {
        assert forall e :: e in es[1..] ==> e in es;
        SectionLinesFree(es[1..]);
      }
    }
  }

  /** If the node of a section comes back with its statement, the statement is steady. */
  lemma FirstSectionSteady(s: PState, e: Entry, more: seq<string>)
    requires !s.inFence && HeadOk(e) && forall l :: l in more ==> '\n' !in l
    requires var nodes := Flush(Run(s, BlockLines(e) + more));
      |nodes| > |Flush(s)| ==> nodes[|Flush(s)|].statement == e.statement
    ensures Trimmed(e.statement) && Steady(Split(e.statement, '\n'), false)
    ensures e.statement == Strip(Join([""] + Keep(Split(e.statement, '\n') + more, false), "\n"))
  {
    var st := Split(e.statement, '\n');
    HeadRuns(s, e);
    Assoc(HeadLines(e), st, more);
    RunConcat(s, HeadLines(e), st + more);
    hide Run, Keep, Steady, HeadLines, Split, Join, Strip;
    FirstStatement(HeadState(Flush(s), e), st + more);
    StatementSteady(e.statement, more);
  }

  /** And if another section follows, it closes its fences. */
  lemma FirstSectionCloses(e: Entry, next: Entry, more: seq<string>)
    requires Trimmed(e.statement) && Steady(Split(e.statement, '\n'), false) && HeadReads(next)
    requires e.statement
      == Strip(Join([""] + Keep(Split(e.statement, '\n') + (["", "## " + next.key] + more), false), "\n"))
    ensures !OddFences(e)
  {
    var st := Split(e.statement, '\n');
    var tail := ["", "## " + next.key] + more;
    SteadyHeaderFree(st, false);
    SteadyOrShort(st, tail, false);
    if OddFences(e) {
      assert tail[1..] == ["## " + next.key] + more && tail[1..][1..] == more && !IsFence("");
      assert Keep(tail, true) == ["", "## " + next.key] + Keep(more, true);
      Assoc([""] + st, ["", "## " + next.key], Keep(more, true));
      Assoc([""], st, Keep(tail, true));
      hide Keep, Steady, OddFences, Join, Strip;
      SwallowedShows(e.statement, "## " + next.key, Keep(more, true));
    }
  }

  predicate HeadReads(e: Entry) {
    !IsFence("## " + e.key) && HeadingKey("## " + e.key).Some?
  }

  lemma {:induction false} SteadyHeaderFree(lines: seq<string>, inFence: bool)
    requires Steady(lines, inFence)
    ensures HeaderFree(lines, inFence)
    decreases |lines|
  {
    if lines != [] {
      SteadyHeaderFree(lines[1..], if IsFence(lines[0]) then !inFence else inFence);
    }
  }

  lemma LoneSectionReadable(s: PState, e: Entry)
    requires !s.inFence && HeadOk(e)
    requires Flush(Run(s, BlockLines(e))) == Flush(s) + [AsNode(e)]
    ensures ShapeOk(e)
  {
    assert BlockLines(e) + [] == BlockLines(e);
    FirstSectionSteady(s, e, []);
    SteadyBlock(s, e);
    hide Run, BlockLines, Steady, Keep, LeanRead, OddFences;
    assert Flush(s) + [AsNode(e).(lean := LeanRead(e))] == Flush(s) + [AsNode(e)];
    LeanComesBack(e, Flush(s));
  }

  lemma LeanComesBack(e: Entry, before: seq<Node>)
    requires HeadOk(e) && before + [AsNode(e).(lean := LeanRead(e))] == before + [AsNode(e)]
    ensures LeanOk(e.lean)
  {
    assert (before + [AsNode(e).(lean := LeanRead(e))])[|before|] == (before + [AsNode(e)])[|before|];
    assert LeanRead(e) == Some(e.lean);
    LeanReadsOnly(e.lean);
  }

  lemma FollowedSectionReadable(s: PState, e: Entry, rest: seq<Entry>)
    requires !s.inFence && HeadOk(e) && rest != [] && forall d :: d in rest ==> HeadOk(d)
    requires var nodes := Flush(Run(s, BlockLines(e) + ([""] + AllBlockLines(rest))));
      |nodes| > |Flush(s)| && nodes[|Flush(s)|] == AsNode(e)
    ensures ShapeOk(e) && !OddFences(e)
  {
    var more := [""] + AllBlockLines(rest);
    AllHeadsFree(rest);
    SectionLinesFree(rest);
    NextSection(rest);
    assert forall l :: l in more ==> l == "" || l in AllBlockLines(rest);
    hide Run, BlockLines, AllBlockLines, Steady, Keep, LeanRead, OddFences, Flush, Join, Strip, HeadReads;
    FirstSectionSteady(s, e, more);
    FirstSectionCloses(e, rest[0], AllBlockLines(rest)[1..]);
    FirstNodeStays(s, e, rest);
    LeanComesBack(e, []);
  }

  lemma NextReads(rest: seq<Entry>)
    requires rest != [] && HeadOk(rest[0])
    ensures HeadReads(rest[0])
  {
    HeadingReads(rest[0].key);
    hide IsFence, HeadingKey;
  }

  lemma NextSection(rest: seq<Entry>)
    requires rest != [] && forall d :: d in rest ==> HeadOk(d)
    ensures AllBlockLines(rest) != [] && HeadReads(rest[0])
    ensures [""] + AllBlockLines(rest) == ["", "## " + rest[0].key] + AllBlockLines(rest)[1..]
  {
    assert rest[0] in rest;
    RestStarts(rest);
    hide AllBlockLines, HeadOk, HeadReads;
    NextReads(rest);
    assert [""] + (["## " + rest[0].key] + AllBlockLines(rest)[1..])
      == ["", "## " + rest[0].key] + AllBlockLines(rest)[1..];
  }

  lemma FirstNode(before: seq<Node>, es: seq<Entry>)
    requires es != []
    ensures (before + AsNodes(es))[|before|] == AsNode(es[0])
    ensures |es| == 1 ==> before + AsNodes(es) == before + [AsNode(es[0])]
  {
    assert AsNodes(es)[0] == AsNode(es[0]);
  }

  lemma FirstLines(es: seq<Entry>)
    requires es != []
    ensures AllBlockLines(es)
      == if |es| == 1 then BlockLines(es[0]) else BlockLines(es[0]) + ([""] + AllBlockLines(es[1..]))
  {
    Assoc(BlockLines(es[0]), [""], AllBlockLines(es[1..]));
    hide BlockLines;
  }

  /** A first section that comes back is of the shape, and closed if another follows. */
  lemma FirstSectionReadable(s: PState, es: seq<Entry>)
    requires !s.inFence && es != [] && forall e :: e in es ==> HeadOk(e)
    requires Flush(Run(s, AllBlockLines(es))) == Flush(s) + AsNodes(es)
    ensures ShapeOk(es[0]) && (|es| > 1 ==> !OddFences(es[0]))
  {
    FirstNode(Flush(s), es);
    FirstLines(es);
    assert es[0] in es && forall d :: d in es[1..] ==> d in es;
    hide HeadOk, Run, Flush, ShapeOk, BlockLines, AllBlockLines, OddFences, AsNode;
    if |es| == 1 {
      LoneSectionReadable(s, es[0]);
    } else {
      FollowedSectionReadable(s, es[0], es[1..]);
    }
  }

  lemma AllHeadsFree(es: seq<Entry>)
    requires forall e :: e in es ==> HeadOk(e)
    ensures forall e :: e in es ==> HeadNewlineFree(e)
  {
    forall e | e in es
      ensures HeadNewlineFree(e)
    {
      HeadIsNewlineFree(e);
    }
  }

  lemma RestStarts(es: seq<Entry>)
    requires es != []
    ensures AllBlockLines(es) == ["## " + es[0].key] + AllBlockLines(es)[1..]
  {
    assert AllBlockLines(es)[0] == HeadLines(es[0])[0];
  }

  /** The section's node, with the name as the parser reads it. */
  lemma FirstNodeStays(s: PState, e: Entry, rest: seq<Entry>)
    requires !s.inFence && HeadOk(e) && rest != [] && HeadReads(rest[0])
    requires Trimmed(e.statement) && Steady(Split(e.statement, '\n'), false) && !OddFences(e)
    ensures var nodes := Flush(Run(s, BlockLines(e) + ([""] + AllBlockLines(rest))));
      |nodes| > |Flush(s)| && nodes[|Flush(s)|] == AsNode(e).(lean := LeanRead(e))
  {
    var s1 := Run(s, BlockLines(e));
    SteadyBlock(s, e);
    BlankLine(s1);
    RunOne(s1, "");
    RunConcat(s, BlockLines(e), [""] + AllBlockLines(rest));
    RunConcat(s1, [""], AllBlockLines(rest));
    RestStarts(rest);
    var s2 := Step(s1, "");
    hide BlockLines, AllBlockLines, Steady, OddFences, LeanRead, IsFence, HeadingKey;
    var l := "## " + rest[0].key;
    assert Step(s2, l).nodes == Flush(s2);
    assert ([l] + AllBlockLines(rest)[1..])[1..] == AllBlockLines(rest)[1..];
    RunExtendsNodes(Step(s2, l), AllBlockLines(rest)[1..]);
  }

  lemma {:induction false} SectionsReadOnly(s: PState, es: seq<Entry>)
    requires !s.inFence && es != [] && forall e :: e in es ==> HeadOk(e)
    requires Flush(Run(s, AllBlockLines(es))) == Flush(s) + AsNodes(es)
    ensures SectionsReadable(es)
    decreases |es|
  {
    var e, rest := es[0], es[1..];
    assert e in es;
    FirstSectionReadable(s, es);
    if rest != [] {
      ClosedIsReadable(e);
      BlockThenBlank(s, e);
      NodesCons(es);
      var s2 := Run(s, BlockLines(e) + [""]);
      RunConcat(s, BlockLines(e) + [""], AllBlockLines(rest));
      Assoc(Flush(s), [AsNode(e)], AsNodes(rest));
      assert forall d :: d in rest ==> d in es;
      FencesCloseTail(es);
      hide ShapeOk, OddFences, Readable, Run, BlockLines, Flush, HeadOk, FencesClose;
      SectionsReadOnly(s2, rest);
      assert forall d :: d in es ==> d == e || d in rest;
    }
  }

  // ---------- the document ----------

  /** The header fields of entries that come back. */
  lemma HeadsFromNodes(text: string, before: seq<Node>, es: seq<Entry>)
    requires ParseNodes(text) == before + AsNodes(es)
    requires forall e :: e in es ==> e.key != "" && e.lean != "" && ValidKind(e.kind)
    ensures forall e :: e in es ==> HeadOk(e)
  {
    LinesFree(text);
    RunWellRead(START, Lines(text));
    forall e | e in es
      ensures HeadOk(e)
    {
      var i :| 0 <= i < |es| && es[i] == e;
      var n := ParseNodes(text)[|before| + i];
      assert n == AsNodes(es)[i] == AsNode(e);
      assert n in ParseNodes(text);
      FlushWellRead(Run(START, Lines(text)), n);
    }
  }

  lemma FlushWellRead(s: PState, n: Node)
    requires WellReadState(s) && n in Flush(s)
    ensures WellRead(n)
  {
  }

  lemma SectionsReadIff(s: PState, es: seq<Entry>)
    requires !s.inFence && es != [] && forall e :: e in es ==> HeadOk(e)
    ensures Flush(Run(s, AllBlockLines(es))) == Flush(s) + AsNodes(es) <==> SectionsReadable(es)
  {
    if SectionsReadable(es) {
      SectionsRun(s, es);
    }
    if Flush(Run(s, AllBlockLines(es))) == Flush(s) + AsNodes(es) {
      SectionsReadOnly(s, es);
    }
  }

  lemma ShapeHasHead(e: Entry)
    requires ShapeOk(e) && ValidKind(e.kind)
    ensures HeadOk(e)
  {
  }

  /** The new document reads as the unchanged old nodes followed by exactly the printed ones, if and only if the
      old text does not end in a blank-key heading and the sections are readable. */
  lemma RoundTripIff(existing: string, es: seq<Entry>)
    requires es != [] && forall e :: e in es ==> e.key != "" && e.lean != "" && ValidKind(e.kind)
    ensures ParseNodes(NewText(existing, es)) == Settle(ParseNodes(existing), Unclosed(existing)) + AsNodes(es)
      <==> !EndsInBlankHeading(existing) && SectionsReadable(es)
  {
    var before := Settle(ParseNodes(existing), Unclosed(existing));
    if SectionsReadable(es) {
      forall e | e in es
        ensures HeadOk(e)
      {
        ShapeHasHead(e);
      }
    }
    if ParseNodes(NewText(existing, es)) == before + AsNodes(es) {
      HeadsFromNodes(NewText(existing, es), before, es);
    }
    if forall e :: e in es ==> HeadOk(e) {
      RoundTripForHeads(existing, es);
    }
  }

  lemma RoundTripForHeads(existing: string, es: seq<Entry>)
    requires es != [] && forall e :: e in es ==> HeadOk(e)
    ensures ParseNodes(NewText(existing, es)) == Settle(ParseNodes(existing), Unclosed(existing)) + AsNodes(es)
      <==> !EndsInBlankHeading(existing) && SectionsReadable(es)
  {
    assert es[0] in es;
    AllHeadsFree(es);
    NewTextRuns(existing, es);
    BlocksSplit(es);
    TrailingSpace(existing);
    OldNodesStayIff(existing, es);
    hide ParseNodes, SectionsReadable, Settle, OldState, Blocks, Run, Flush, EndsInBlankHeading;
    SectionsReadIff(OldState(existing), es);
  }

  lemma FreshKeyIsNotEmpty(base: string, taken: set<string>)
    ensures FreshKey(base, taken) != ""
  {
    FreshKeyIsFirst(base, taken);
  }

  /** For any artifacts at all: the generated document is the unchanged old nodes followed by exactly the
      candidates, if and only if the old text does not end in a blank-key heading and the sections are readable. */
  lemma GenerateIsAdditiveIff(existing: string, arts: seq<Artifact>)
    requires Entries(existing, arts) != []
    ensures ParseNodes(Generated(existing, arts))
         == Settle(ParseNodes(existing), Unclosed(existing)) + AsNodes(Entries(existing, arts))
       <==> !EndsInBlankHeading(existing) && SectionsReadable(Entries(existing, arts))
  {
    var es, cs, nodes := Entries(existing, arts), Candidates(existing, arts), ParseNodes(existing);
    forall e | e in es
      ensures e.key != "" && e.lean != "" && ValidKind(e.kind)
    {
      var i :| 0 <= i < |es| && es[i] == e;
      CandidatesComeFrom(arts, Leans(nodes), KeySet(nodes), cs[i]);
      var t :| cs[i].key == FreshKey(cs[i].short, t);
      FreshKeyIsNotEmpty(cs[i].short, t);
    }
    RoundTripIff(existing, es);
  }
}
