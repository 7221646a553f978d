/** The blueprint's rules in plain terms: which lines are fences, headings and header lines, what a header
    line says, and exactly what the validator reports. */
module BlueprintRules {
  import opened Text
  import opened Blueprint

  // ---------- line shapes ----------

  /** Whitespace and then at least three backticks. */
  lemma FenceIff(line: string)
    ensures IsFence(line) <==> exists a, rest :: Blank(a) && line == a + "```" + rest
  {
    var a := LStripSplits(line);
    if IsFence(line) {
      assert line == a + "```" + LStrip(line)[3..];
    }
    if b, rest :| Blank(b) && line == b + "```" + rest {
      assert line == b + ("```" + rest);
      LStripDrops(b, "```" + rest);
      assert ("```" + rest)[..3] == "```";
    }
  }

  /** Two hashes, whitespace, the key and whitespace. */
  ghost predicate HeadingWith(line: string, key: string) {
    exists a, b :: a != "" && Blank(a) && Blank(b) && line == "##" + a + key + b
  }

  /** A heading has the trimmed text behind its hashes as key, which may be blank only if at least two
      characters of whitespace stand there. */
  lemma HeadingIff(line: string, key: string)
    ensures HeadingKey(line) == Some(key) <==>
      Trimmed(key) && HeadingWith(line, key) && (key == "" ==> |line| > 3)
  {
    if HeadingKey(line) == Some(key) {
      var r := line[2..];
      assert line == "##" + r;
      var a, b := StripSplits(r);
      hide Strip, Blank;
      HeadingShape(r, a, b);
    }
    if Trimmed(key) && HeadingWith(line, key) && (key == "" ==> |line| > 3) {
      var a, b :| a != "" && Blank(a) && Blank(b) && line == "##" + a + key + b;
      ShapeIsHeading(a, key, b);
    }
  }

  lemma ShapeIsHeading(a: string, key: string, b: string)
    requires a != "" && Blank(a) && Blank(b) && Trimmed(key) && (key == "" ==> |a + b| > 1)
    ensures HeadingKey("##" + a + key + b) == Some(key)
  {
    var r := a + key + b;
    var line := "##" + a + key + b;
    assert line == "##" + r && line[2..] == r && "##" <= line;
    assert r[0] == a[0];
    StripFinds(a, key, b);
    assert key != "" ==> r[|a|] == key[0];
    hide Strip;
  }

  lemma HeadingShape(r: string, a: string, b: string)
    requires r == a + Strip(r) + b && Blank(a) && Blank(b) && r != "" && IsSpace(r[0])
    ensures HeadingWith("##" + r, Strip(r)) && Trimmed(Strip(r))
  {
    var _, _ := StripSplits(r);
    var key := Strip(r);
    if key == "" {
      assert "##" + r == "##" + r + key + "";
      assert Blank(r);
    } else {
      assert (key + b)[0] == key[0];
      assert a == "" ==> r == key + b;
      assert "##" + r == "##" + a + key + b;
    }
  }

  const UPPER := "ABCDEFGHIJKLMNOPQRSTUVWXYZ"

  const LOWER := "abcdefghijklmnopqrstuvwxyz"

  /** Capital letters become small ones, and nothing else changes. */
  lemma LowerIs(s: string, i: nat)
    requires i < |s|
    ensures forall k :: 0 <= k < 26 && s[i] == UPPER[k] ==> Lower(s)[i] == LOWER[k]
    ensures s[i] !in UPPER ==> Lower(s)[i] == s[i]
  {
    assert forall k :: 0 <= k < 26 ==> UPPER[k] as int == 65 + k && LOWER[k] as int == 97 + k;
    assert 'A' <= s[i] <= 'Z' ==> s[i] == UPPER[s[i] as int - 65];
  }

  ghost predicate Names(name: string, f: Field) {
    Lower(name) == match f case KindField => "kind" case LeanField => "lean" case UsesField => "uses"
  }

  /** A dash, one of the three names in any case, a colon and the value, with whitespace between them all. */
  ghost predicate HeaderWith(line: string, f: Field, value: string) {
    exists a, b, name, c, v ::
      && Blank(a) && Blank(b) && Names(name, f) && Blank(c)
      && line == a + "-" + b + name + c + ":" + v && value == Strip(v)
  }

  lemma FieldIff(name: string, f: Field)
    ensures FieldNamed(Lower(name)) == Some(f) <==> Names(name, f)
  {
    assert "kind"[0] == 'k' && "lean"[0] == 'l' && "uses"[0] == 'u';
  }

  /** Header lines are exactly the lines of that shape. */
  lemma HeaderIff(line: string, f: Field, value: string)
    ensures HeaderOf(line) == Some((f, value)) <==> HeaderWith(line, f, value)
  {
    if HeaderOf(line) == Some((f, value)) {
      HeaderShape(line, f, value);
    }
    if HeaderWith(line, f, value) {
      var a, b, name, c, v :|
        Blank(a) && Blank(b) && Names(name, f) && Blank(c) && line == a + "-" + b + name + c + ":" + v
        && value == Strip(v);
      ShapeReads(a, b, name, c, v, f);
    }
  }

  lemma NameShape(u: string, f: Field, value: string) returns (name: string, c: string, v: string)
    requires HeaderName(u) == Some((f, value))
    ensures Names(name, f) && Blank(c) && u == name + c + ":" + v && value == Strip(v)
  {
    name := u[..4];
    c := LStripSplits(u[4..]);
    var w := LStrip(u[4..]);
    v := w[1..];
    FieldIff(name, f);
    assert w == ":" + v;
    assert u == name + (c + w);
    hide LStrip, Strip, Lower, FieldNamed, Names;
  }

  lemma HeaderShape(line: string, f: Field, value: string)
    requires HeaderOf(line) == Some((f, value))
    ensures HeaderWith(line, f, value)
  {
    var a := LStripSplits(line);
    var t := LStrip(line);
    var b := LStripSplits(t[1..]);
    var u := LStrip(t[1..]);
    hide HeaderName, LStrip, Strip, Names, Blank;
    var name, c, v := NameShape(u, f, value);
    assert t == "-" + (b + u);
    Pieces(a, b, name, c, v);
  }

  lemma Pieces(a: string, b: string, name: string, c: string, v: string)
    ensures a + ("-" + (b + (name + c + ":" + v))) == a + "-" + b + name + c + ":" + v
  {
  }

  lemma ShapeReads(a: string, b: string, name: string, c: string, v: string, f: Field)
    requires Blank(a) && Blank(b) && Names(name, f) && Blank(c)
    ensures HeaderOf(a + "-" + b + name + c + ":" + v) == Some((f, Strip(v)))
  {
    var line := a + "-" + b + name + c + ":" + v;
    var x := c + ":" + v;
    var u := name + x;
    var t := "-" + (b + u);
    assert line == a + t;
    LStripDrops(a, t);
    assert t[1..] == b + u;
    NameIsSolid(name, f);
    assert u[0] == name[0];
    LStripDrops(b, u);
    assert u[..4] == name && u[4..] == x && x == c + (":" + v);
    LStripDrops(c, ":" + v);
    assert (":" + v)[1..] == v;
    FieldIff(name, f);
  }

  lemma NameIsSolid(name: string, f: Field)
    requires Names(name, f)
    ensures |name| == 4 && !IsSpace(name[0])
  {
    assert |Lower(name)| == |name|;
    assert Lower(name)[0] == LowerChar(name[0]);
    assert "kind"[0] == 'k' && "lean"[0] == 'l' && "uses"[0] == 'u';
  }

  // ---------- one section at a time ----------

  /** The lines an open section keeps as its statement. */
  function Keep(lines: seq<string>, inFence: bool): seq<string> {
    if lines == [] then []
    else
      var l, rest := lines[0], lines[1..];
      if IsFence(l) then [l] + Keep(rest, !inFence)
      else if inFence then [l] + Keep(rest, true)
      else if HeadingKey(l).Some? then []
      else if HeaderOf(l).Some? then Keep(rest, false)
      else [l] + Keep(rest, false)
  }

  /** The value of the last header line of this name before the next heading, both outside fences. */
  function LastValue(lines: seq<string>, inFence: bool, f: Field): Option<string> {
    if lines == [] then None
    else
      var l, rest := lines[0], lines[1..];
      if IsFence(l) then LastValue(rest, !inFence, f)
      else if inFence then LastValue(rest, true, f)
      else if HeadingKey(l).Some? then None
      else if LastValue(rest, false, f).Some? then LastValue(rest, false, f)
      else if HeaderOf(l).Some? && HeaderOf(l).value.0 == f then Some(HeaderOf(l).value.1)
      else None
  }

  /** A node from its key and the lines behind its heading. */
  function NodeFrom(key: string, lines: seq<string>): Node {
    var kind, lean := LastValue(lines, false, KindField), LastValue(lines, false, LeanField);
    var uses := LastValue(lines, false, UsesField);
    Node(key,
         if kind.Some? then NonEmpty(Lower(Strip(kind.value))) else None,
         if lean.Some? then NonEmpty(StripInlineCode(lean.value)) else None,
         if uses.Some? then UsesIn(uses.value) else [],
         Strip(Join(Keep(lines, false), "\n")))
  }

  /** A node for each heading outside fences. */
  function NodesFrom(lines: seq<string>, inFence: bool): seq<Node> {
    if lines == [] then []
    else
      var l, rest := lines[0], lines[1..];
      if IsFence(l) then NodesFrom(rest, !inFence)
      else if inFence then NodesFrom(rest, true)
      else if HeadingKey(l).Some? then [NodeFrom(HeadingKey(l).value, rest)] + NodesFrom(rest, false)
      else NodesFrom(rest, false)
  }

  /** What the open section becomes with the lines to come. */
  function Finished(s: PState, lines: seq<string>): Node
    requires s.current.Some?
  {
    var n := s.current.value;
    var kind, lean := LastValue(lines, s.inFence, KindField), LastValue(lines, s.inFence, LeanField);
    var uses := LastValue(lines, s.inFence, UsesField);
    Node(n.key,
         if kind.Some? then NonEmpty(Lower(Strip(kind.value))) else n.kind,
         if lean.Some? then NonEmpty(StripInlineCode(lean.value)) else n.lean,
         if uses.Some? then UsesIn(uses.value) else n.uses,
         Strip(Join(s.lines + Keep(lines, s.inFence), "\n")))
  }

  function OpenSection(s: PState, lines: seq<string>): seq<Node> {
    if s.current.Some? then [Finished(s, lines)] else []
  }

  lemma StepFinishes(s: PState, lines: seq<string>)
    requires lines != [] && s.current.Some?
    requires IsFence(lines[0]) || s.inFence || HeadingKey(lines[0]).None?
    ensures Step(s, lines[0]).nodes == s.nodes && Step(s, lines[0]).current.Some?
    ensures Finished(Step(s, lines[0]), lines[1..]) == Finished(s, lines)
  {
    hide IsFence, HeadingKey, HeaderOf, Strip, Join, Lower, StripInlineCode, UsesIn;
    assert s.lines + ([lines[0]] + Keep(lines[1..], !s.inFence)) == s.lines + [lines[0]] + Keep(lines[1..], !s.inFence);
    assert s.lines + ([lines[0]] + Keep(lines[1..], s.inFence)) == s.lines + [lines[0]] + Keep(lines[1..], s.inFence);
  }

  lemma HeadingFinishes(s: PState, lines: seq<string>)
    requires lines != [] && !IsFence(lines[0]) && !s.inFence && HeadingKey(lines[0]).Some?
    ensures var s' := Step(s, lines[0]);
      && s'.nodes == Flush(s) == s.nodes + OpenSection(s, lines)
      && OpenSection(s', lines[1..]) == [NodeFrom(HeadingKey(lines[0]).value, lines[1..])]
  {
    hide IsFence, HeadingKey, HeaderOf, Strip, Join, Lower, StripInlineCode, UsesIn;
    assert s.lines + [] == s.lines && [] + Keep(lines[1..], false) == Keep(lines[1..], false);
  }

  lemma {:induction false} RunBySections(s: PState, lines: seq<string>)
    ensures Flush(Run(s, lines)) == s.nodes + OpenSection(s, lines) + NodesFrom(lines, s.inFence)
    decreases |lines|
  {
    if lines == [] {
      assert s.lines + [] == s.lines;
    } else {
      var s' := Step(s, lines[0]);
      RunBySections(s', lines[1..]);
      if !IsFence(lines[0]) && !s.inFence && HeadingKey(lines[0]).Some? {
        HeadingFinishes(s, lines);
        Assoc(Flush(s), OpenSection(s', lines[1..]), NodesFrom(lines[1..], false));
      } else {
        if s.current.Some? {
          StepFinishes(s, lines);
        }
        hide Finished, Flush, Run, IsFence, HeadingKey, HeaderOf;
      }
    }
  }

  /** A section has no kind or no name without such a line, and also when its last one is blank. */
  lemma AbsentIff(key: string, lines: seq<string>)
    ensures var n := NodeFrom(key, lines);
      var kind, lean := LastValue(lines, false, KindField), LastValue(lines, false, LeanField);
      && (n.kind.None? <==> kind.None? || Lower(Strip(kind.value)) == "")
      && (n.lean.None? <==> lean.None? || StripInlineCode(lean.value) == "")
      && (n.kind.Some? ==> n.kind.value == Lower(Strip(kind.value)))
      && (n.lean.Some? ==> n.lean.value == StripInlineCode(lean.value))
  {
    hide LastValue, Lower, Strip, StripInlineCode;
  }

  /** The one pass over the lines reads every section by itself: its last header lines outside fences, and the
      lines that are neither heading nor header line, trimmed. */
  lemma ParseBySections(text: string)
    ensures ParseNodes(text) == NodesFrom(Lines(text), false)
  {
    RunBySections(START, Lines(text));
    assert [] + [] + NodesFrom(Lines(text), false) == NodesFrom(Lines(text), false);
  }

  // ---------- the validator ----------

  lemma {:induction false} DuplicateIff(keys: seq<string>, seen: set<string>, w: Warning)
    ensures w in Duplicates(keys, seen) <==>
      w.DuplicateKey? && exists j :: 0 <= j < |keys| && keys[j] == w.key && (w.key in seen || w.key in keys[..j])
    decreases |keys|
  {
    if keys != [] {
      var rest := keys[1..];
      DuplicateIff(rest, seen + {keys[0]}, w);
      assert keys == [keys[0]] + rest;
      assert forall j :: 0 < j < |keys| ==> keys[j] == rest[j - 1] && keys[..j] == [keys[0]] + rest[..j - 1];
      assert forall j :: 0 <= j < |rest| ==> rest[j] == keys[j + 1];
    }
  }

  lemma {:induction false} DanglingIff(key: string, uses: seq<string>, known: set<string>, w: Warning)
    ensures w in UseWarnings(key, uses, known) <==>
      w.DanglingUse? && w.key == key && w.dep in uses && w.dep !in known
  {
    if uses != [] {
      DanglingIff(key, uses[1..], known, w);
      assert uses == [uses[0]] + uses[1..];
    }
  }

  /** What is reported about one node. */
  ghost predicate Faults(n: Node, nodes: seq<Node>, w: Warning) {
    && w.key == n.key
    && match w
       case DuplicateKey(_) => false
       case MissingKind(_) => n.kind.None?
       case UnknownKind(_, kind) => n.kind == Some(kind) && kind !in ["definition", "lemma", "theorem"]
       case DanglingUse(_, dep) => dep in n.uses && forall m :: m in nodes ==> m.key != dep
  }

  lemma {:induction false} NodeWarningIff(rest: seq<Node>, nodes: seq<Node>, w: Warning)
    ensures w in NodeWarnings(rest, KeySet(nodes)) <==> exists n :: n in rest && Faults(n, nodes, w)
  {
    if rest != [] {
      var n := rest[0];
      NodeWarningIff(rest[1..], nodes, w);
      DanglingIff(n.key, n.uses, KeySet(nodes), w);
      assert rest == [n] + rest[1..];
      assert w in KindWarnings(n) + UseWarnings(n.key, n.uses, KeySet(nodes)) <==> Faults(n, nodes, w);
      hide KindWarnings, UseWarnings, Faults, KeySet;
    }
  }

  /** A warning is given if and only if it is true: two nodes have the key; a node has no kind, or one that is not
      among the three; or a node depends on a key no node has. */
  lemma WarnedIff(nodes: seq<Node>, w: Warning)
    ensures w in Warnings(nodes) <==>
      if w.DuplicateKey? then exists i, j :: 0 <= i < j < |nodes| && nodes[i].key == nodes[j].key == w.key
      else exists n :: n in nodes && Faults(n, nodes, w)
  {
    var keys := Keys(nodes);
    DuplicateIff(keys, {}, w);
    NodeWarningIff(nodes, nodes, w);
    hide Duplicates, NodeWarnings, Faults;
    assert w in Warnings(nodes) <==> w in Duplicates(keys, {}) || w in NodeWarnings(nodes, KeySet(nodes));
    if w.DuplicateKey? {
      NoFaultIsDuplicate(nodes, w);
      if j :| 0 <= j < |keys| && keys[j] == w.key && w.key in keys[..j] {
        var i :| 0 <= i < j && keys[..j][i] == w.key;
        assert nodes[i].key == nodes[j].key == w.key;
      }
      if i, j :| 0 <= i < j < |nodes| && nodes[i].key == nodes[j].key == w.key {
        assert keys[..j][i] == w.key && keys[j] == w.key;
      }
    }
  }

  lemma NoFaultIsDuplicate(nodes: seq<Node>, w: Warning)
    requires w.DuplicateKey?
    ensures forall n :: n in nodes ==> !Faults(n, nodes, w)
  {
  }

  lemma Regroup<T>(a: seq<T>, b: seq<T>, c: seq<T>, d: seq<T>)
    ensures a + (b + c + d) == a + b + c + d
  {
  }

  /** Dependencies are reported in their order, each as often as it is named. */
  lemma {:induction false} UsesInOrder(key: string, front: seq<string>, use: string, rest: seq<string>,
      known: set<string>)
    ensures UseWarnings(key, front + [use] + rest, known)
      == UseWarnings(key, front, known) + (if use in known then [] else [DanglingUse(key, use)])
         + UseWarnings(key, rest, known)
    decreases |front|
  {
    var all := front + [use] + rest;
    var w := if use in known then [] else [DanglingUse(key, use)];
    var after := UseWarnings(key, rest, known);
    if front == [] {
      assert all[0] == use && all[1..] == rest;
      assert UseWarnings(key, all, known) == w + after && UseWarnings(key, front, known) == [];
      assert [] + w + after == w + after;
    } else {
      UsesInOrder(key, front[1..], use, rest, known);
      assert all[0] == front[0] && all[1..] == front[1..] + [use] + rest;
      var first := if front[0] in known then [] else [DanglingUse(key, front[0])];
      var before := UseWarnings(key, front[1..], known);
      assert UseWarnings(key, all, known) == first + (before + w + after);
      assert UseWarnings(key, front, known) == first + before;
      hide UseWarnings;
      Regroup(first, before, w, after);
    }
  }

  /** The warning about a node's kind, if there is one. */
  function KindFault(n: Node): seq<Warning> {
    if n.kind.None? then [MissingKind(n.key)]
    else if n.kind.value in ["definition", "lemma", "theorem"] then []
    else [UnknownKind(n.key, n.kind.value)]
  }

  /** Nodes are reported in their order, a node's kind before its dependencies. */
  lemma {:induction false} NodesInOrder(front: seq<Node>, n: Node, rest: seq<Node>, known: set<string>)
    ensures NodeWarnings(front + [n] + rest, known)
      == NodeWarnings(front, known) + (KindFault(n) + UseWarnings(n.key, n.uses, known)) + NodeWarnings(rest, known)
    decreases |front|
  {
    var all := front + [n] + rest;
    var w := KindFault(n) + UseWarnings(n.key, n.uses, known);
    var after := NodeWarnings(rest, known);
    assert KindWarnings(n) == KindFault(n);
    hide UseWarnings, KindWarnings, KindFault;
    if front == [] {
      assert all[0] == n && all[1..] == rest;
      assert NodeWarnings(all, known) == w + after && NodeWarnings(front, known) == [];
      assert [] + w + after == w + after;
    } else {
      NodesInOrder(front[1..], n, rest, known);
      assert all[0] == front[0] && all[1..] == front[1..] + [n] + rest;
      var first := KindWarnings(front[0]) + UseWarnings(front[0].key, front[0].uses, known);
      var before := NodeWarnings(front[1..], known);
      assert NodeWarnings(all, known) == first + (before + w + after);
      assert NodeWarnings(front, known) == first + before;
      hide NodeWarnings;
      Regroup(first, before, w, after);
    }
  }

  /** Repeated keys are reported before anything about single nodes. */
  lemma DuplicatesFirst(nodes: seq<Node>, i: nat, j: nat)
    requires i < |Warnings(nodes)| && j < |Warnings(nodes)|
    requires Warnings(nodes)[i].DuplicateKey? && !Warnings(nodes)[j].DuplicateKey?
    ensures i < j
  {
    var dups, others := Duplicates(Keys(nodes), {}), NodeWarnings(nodes, KeySet(nodes));
    var w := Warnings(nodes);
    assert forall k :: 0 <= k < |w| ==> w[k] == if k < |dups| then dups[k] else others[k - |dups|];
    hide Duplicates, NodeWarnings, Warnings;
    forall x
      ensures x in dups ==> x.DuplicateKey?
      ensures x in others ==> !x.DuplicateKey?
    {
      DuplicateIff(Keys(nodes), {}, x);
      NodeWarningIff(nodes, nodes, x);
      if x.DuplicateKey? {
        NoFaultIsDuplicate(nodes, x);
      }
    }
    assert forall k :: 0 <= k < |dups| ==> dups[k] in dups;
    assert forall k :: 0 <= k < |others| ==> others[k] in others;
  }
}
