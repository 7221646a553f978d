/** The blueprint generator's choices in plain terms: what a generated node says about its artifact, and
    which keys its code can refer to. */
module SeedRules {
  import opened Text
  import opened Blueprint
  import opened BlueprintBlocks
  import opened BlueprintDocument
  import opened BlueprintReadback
  import opened BlueprintSeed
  import DeclarationScan
  import LeanLexer

  // ---------- statements ----------

  /** The header's lines without the whitespace at their ends. */
  function Cropped(header: string): string {
    Join(RStripAll(Lines(header)), "\n")
  }

  function Cut(s: string, n: nat): string {
    if |s| > n then s[..n] else s
  }

  lemma {:induction false} FrontIsBlank(lines: seq<string>) returns (a: seq<string>)
    ensures lines == a + DropEmptyFront(lines) && forall l :: l in a ==> l == ""
  {
    if lines != [] && lines[0] == "" {
      a := FrontIsBlank(lines[1..]);
      assert lines == [""] + lines[1..];
      a := [""] + a;
    } else {
      a := [];
    }
  }

  lemma {:induction false} BackIsBlank(lines: seq<string>) returns (b: seq<string>)
    ensures lines == DropEmptyBack(lines) + b && forall l :: l in b ==> l == ""
    ensures DropEmptyBack(lines) != [] ==> Last(DropEmptyBack(lines)) != ""
  {
    if lines != [] && Last(lines) == "" {
      b := BackIsBlank(Front(lines));
      assert lines == Front(lines) + [""];
      b := b + [""];
    } else {
      b := [];
    }
  }

  lemma {:induction false} EmptyLinesBlank(lines: seq<string>)
    requires forall l :: l in lines ==> l == ""
    ensures Blank(Join(lines, "\n"))
  {
    assert forall i :: 0 <= i < |lines| ==> lines[i] in lines;
    if |lines| > 1 {
      assert forall l :: l in lines[1..] ==> l in lines;
      EmptyLinesBlank(lines[1..]);
    }
  }

  lemma StripFront(a: seq<string>, m: seq<string>)
    requires m != [] && forall l :: l in a ==> l == ""
    ensures Strip(Join(a + m, "\n")) == Strip(Join(m, "\n"))
  {
    if a == [] {
      assert a + m == m;
    } else {
      EmptyLinesBlank(a);
      JoinAppend(a, m, "\n");
      var x := Join(a, "\n") + "\n";
      hide Join, Strip;
      assert Blank(x) && x + Join(m, "\n") + "" == x + Join(m, "\n");
      StripPadded(x, Join(m, "\n"), "");
    }
  }

  lemma StripBack(m: seq<string>, b: seq<string>)
    requires m != [] && forall l :: l in b ==> l == ""
    ensures Strip(Join(m + b, "\n")) == Strip(Join(m, "\n"))
  {
    if b == [] {
      assert m + b == m;
    } else {
      EmptyLinesBlank(b);
      JoinAppend(m, b, "\n");
      var y := "\n" + Join(b, "\n");
      hide Join, Strip;
      assert Blank(y) && Join(m, "\n") + "\n" + Join(b, "\n") == "" + Join(m, "\n") + y;
      StripPadded("", Join(m, "\n"), y);
    }
  }

  lemma TrimmedFirst(m: seq<string>)
    requires m != [] && (forall l :: l in m ==> l == "" || !IsSpace(Last(l))) && m[0] != "" && Last(m) != ""
    ensures var t := Join([LStrip(m[0])] + m[1..], "\n"); t != "" && !IsSpace(t[0]) && !IsSpace(Last(t))
  {
    var lines := [LStrip(m[0])] + m[1..];
    assert m[0] in m && Last(m) in m;
    LStripSolid(m[0]);
    var a := LStripSplits(m[0]);
    assert Last(lines) == if |m| > 1 then Last(m) else LStrip(m[0]);
    assert Last(LStrip(m[0])) == Last(m[0]);
    hide Join, LStrip;
    FirstChar(lines);
    LastChar(lines);
  }

  /** The lines between are trimmed by trimming the first one's front. */
  lemma TrimFirst(m: seq<string>)
    requires m != [] && (forall l :: l in m ==> l == "" || !IsSpace(Last(l))) && m[0] != "" && Last(m) != ""
    ensures Strip(Join(m, "\n")) == Join([LStrip(m[0])] + m[1..], "\n")
  {
    TrimmedFirst(m);
    var lines := [LStrip(m[0])] + m[1..];
    var t := Join(lines, "\n");
    var a := LStripSplits(m[0]);
    FirstGrows(a, lines);
    assert [a + lines[0]] + lines[1..] == m;
    hide Join, LStrip, Strip;
    assert a + t + "" == a + t;
    StripFinds(a, t, "");
  }

  lemma FirstChar(lines: seq<string>)
    requires lines != [] && lines[0] != ""
    ensures Join(lines, "\n") != "" && Join(lines, "\n")[0] == lines[0][0]
  {
  }

  lemma {:induction false} LastChar(lines: seq<string>)
    requires lines != [] && Last(lines) != ""
    ensures Join(lines, "\n") != "" && Last(Join(lines, "\n")) == Last(Last(lines))
  {
    if |lines| > 1 {
      LastChar(lines[1..]);
    }
  }

  lemma FirstGrows(a: string, lines: seq<string>)
    requires lines != []
    ensures Join([a + lines[0]] + lines[1..], "\n") == a + Join(lines, "\n")
  {
    var all := [a + lines[0]] + lines[1..];
    assert all[1..] == lines[1..];
    if |lines| > 1 {
      var rest := Join(lines[1..], "\n");
      assert Join(lines, "\n") == lines[0] + "\n" + rest && Join(all, "\n") == a + lines[0] + "\n" + rest;
      hide Join;
      Assoc(a, lines[0], "\n");
      Assoc(a, lines[0] + "\n", rest);
    }
  }

  /** The signature is the header without whitespace at the ends of its lines and around it, cut after 240
      characters; a blank header has none. */
  lemma SignatureIs(header: string)
    ensures Signature(header) == RStrip(Cut(Strip(Cropped(header)), 240))
  {
    var all := RStripAll(Lines(header));
    RStripAllEnds(Lines(header));
    var a := FrontIsBlank(all);
    var front := DropEmptyFront(all);
    EmptyFrontGone(all);
    EmptyBackKeepsFirst(front);
    var b := BackIsBlank(front);
    var m := DropEmptyBack(front);
    if m == [] {
      assert all == a + b;
      EmptyLinesBlank(all);
      BlankStripsAway(Cropped(header));
      assert Cut("", 240) == "" && RStrip("") == "";
    } else {
      assert all == a + (m + b);
      StripFront(a, m + b);
      StripBack(m, b);
      assert m[0] == front[0];
      assert forall l :: l in m ==> l in all;
      TrimFirst(m);
    }
  }

  /** An artifact whose header is blank is described by its name. */
  lemma StatementIs(a: Artifact)
    ensures if Strip(Cropped(a.header)) == "" then StatementFor(a) == "Formalized as `" + a.name + "`."
      else StatementFor(a) == RStrip(Cut(Strip(Cropped(a.header)), 240)) != ""
  {
    var text := Strip(Cropped(a.header));
    SignatureIs(a.header);
    var _, _ := StripSplits(Cropped(a.header));
    var cut := Cut(text, 240);
    var _ := RStripSplits(cut);
    if text == "" {
      assert RStrip(cut) == "";
    } else {
      assert cut[0] == text[0] && !IsSpace(cut[0]);
      assert !Blank(cut);
    }
  }

  // ---------- names ----------

  /** A short name is what stands behind the last dot. */
  lemma ShortIs(name: string)
    ensures '.' !in Short(name)
    ensures if '.' in name then exists front :: name == front + "." + Short(name) else Short(name) == name
  {
    assert Short(name) == DeclarationScan.ShortName(name);
    DeclarationScan.ShortIsAfterDots(name);
    hide Short, DeclarationScan.ShortName, DeclarationScan.AfterDots;
    DeclarationScan.AfterLastDot(name);
  }

  const SMALL := "abcdefghijklmnopqrstuvwxyz"

  const CAPITAL := "ABCDEFGHIJKLMNOPQRSTUVWXYZ"

  const DIGITS := "0123456789"

  lemma SmallIs(c: char)
    ensures c in SMALL <==> 'a' <= c <= 'z'
  {
    assert forall k :: 0 <= k < 26 ==> SMALL[k] as int == 97 + k;
    assert 'a' <= c <= 'z' ==> c == SMALL[c as int - 97];
  }

  lemma CapitalIs(c: char)
    ensures c in CAPITAL <==> 'A' <= c <= 'Z'
  {
    assert forall k :: 0 <= k < 26 ==> CAPITAL[k] as int == 65 + k;
    assert 'A' <= c <= 'Z' ==> c == CAPITAL[c as int - 65];
  }

  lemma DigitIs(c: char)
    ensures c in DIGITS <==> '0' <= c <= '9'
  {
    assert forall k :: 0 <= k < 10 ==> DIGITS[k] as int == 48 + k;
    assert '0' <= c <= '9' ==> c == DIGITS[c as int - 48];
  }

  /** Word characters are letters, digits and the underscore. */
  lemma WordIs(c: char)
    ensures LeanLexer.IsWord(c) <==> c in SMALL || c in CAPITAL || c in DIGITS || c == '_'
  {
    SmallIs(c);
    CapitalIs(c);
    DigitIs(c);
  }

  predicate Wordless(s: string, i: int) {
    0 <= i < |s| ==> !LeanLexer.IsWord(s[i])
  }

  /** The name stands at `i` with no word character next to it. */
  ghost predicate StandsAt(s: string, i: int, short: string) {
    0 <= i <= |s| - |short| && s[i..i + |short|] == short && Wordless(s, i - 1) && Wordless(s, i + |short|)
  }

  lemma BoundariesIff(s: string, i: int, short: string)
    requires short != "" && LeanLexer.IsWord(short[0]) && LeanLexer.IsWord(Last(short))
    requires 0 <= i <= |s| - |short| && s[i..i + |short|] == short
    ensures BoundaryAt(s, i) && BoundaryAt(s, i + |short|) <==> Wordless(s, i - 1) && Wordless(s, i + |short|)
  {
    hide LeanLexer.IsWord;
    assert s[i] == s[i..i + |short|][0] && s[i + |short| - 1] == s[i..i + |short|][|short| - 1];
  }

  /** A name that begins and ends with word characters is mentioned where none stands next to it. */
  lemma MentionsIff(s: string, short: string)
    requires short != "" && LeanLexer.IsWord(short[0]) && LeanLexer.IsWord(Last(short))
    ensures Mentions(s, short) <==> exists i :: StandsAt(s, i, short)
  {
    hide LeanLexer.IsWord, Wordless, BoundaryAt;
    if i :| 0 <= i <= |s| - |short| && s[i..i + |short|] == short && BoundaryAt(s, i) && BoundaryAt(s, i + |short|) {
      BoundariesIff(s, i, short);
      assert StandsAt(s, i, short);
    }
    if i :| StandsAt(s, i, short) {
      BoundariesIff(s, i, short);
    }
  }

  // ---------- numbered keys ----------

  /** The number a text of digits spells. */
  function Spelled(s: string): int {
    if s == "" then 0 else 10 * Spelled(Front(s)) + (Last(s) as int - '0' as int)
  }

  function Chars(ds: seq<Digit>): (r: string)
    ensures |r| == |ds|
  {
    seq(|ds|, i requires 0 <= i < |ds| => DigitChar(ds[i]))
  }

  lemma {:induction false} CharsSpell(ds: seq<Digit>)
    ensures Spelled(Chars(ds)) == Value(ds)
  {
    if ds != [] {
      CharsSpell(Front(ds));
      assert Front(Chars(ds)) == Chars(Front(ds));
      assert Last(Chars(ds)) == DigitChar(Last(ds));
    }
  }

  ghost predicate Numeral(s: string, n: nat) {
    Spelled(s) == n && forall i :: 0 <= i < |s| ==> s[i] in DIGITS
  }

  /** A numbered key is the name, an underscore and the number in decimal digits. */
  lemma NumberedIs(base: string, n: nat)
    ensures exists digits :: Numeral(digits, n) && Numbered(base, n) == base + "_" + digits
  {
    var digits := Decimal(n);
    assert digits == Chars(Digits(n));
    CharsSpell(Digits(n));
    ValueOfDigits(n);
    forall i | 0 <= i < |digits|
      ensures digits[i] in DIGITS
    {
      DigitIs(digits[i]);
    }
    assert Numeral(digits, n);
    hide DIGITS, Numeral, Decimal;
    assert Numbered(base, n) == base + "_" + digits;
  }

  // ---------- who answers to a name ----------

  /** The key of an old node with a declaration of this short name, or of a new one. */
  lemma {:induction false} OwnersAre(nodes: seq<Node>, cs: seq<Candidate>, short: string, key: string)
    ensures (short, key) in Owners(nodes, cs) <==>
      || (exists n :: n in nodes && n.key == key && n.lean.Some? && n.lean.value != "" && Short(n.lean.value) == short)
      || (exists c :: c in cs && c.key == key && c.short == short)
    decreases |nodes|, |cs|
  {
    if nodes != [] {
      OwnersAre(nodes[1..], cs, short, key);
      assert nodes == [nodes[0]] + nodes[1..];
    } else if cs != [] {
      OwnersAre(nodes, cs[1..], short, key);
      assert cs == [cs[0]] + cs[1..];
    }
  }

  lemma {:induction false} KeysAre(owners: seq<(string, string)>, short: string, key: string)
    ensures key in KeysOf(owners, short) <==> (short, key) in owners
    ensures |KeysOf(owners, short)| <= |owners|
  {
    if owners != [] {
      KeysAre(owners[1..], short, key);
      assert owners == [owners[0]] + owners[1..];
    }
  }

  /** Every declaration that answers to a name counts, so two of them are never taken for one. */
  lemma {:induction false} KeysSplit(a: seq<(string, string)>, o: (string, string), b: seq<(string, string)>,
      short: string)
    ensures KeysOf(a + [o] + b, short) == KeysOf(a, short) + (if o.0 == short then [o.1] else []) + KeysOf(b, short)
  {
    if a == [] {
      assert a + [o] + b == [o] + b && ([o] + b)[1..] == b;
    } else {
      assert (a + [o] + b)[1..] == a[1..] + [o] + b;
      KeysSplit(a[1..], o, b, short);
    }
  }

  /** Old nodes are asked before new ones, and these in their order. */
  lemma {:induction false} OwnersInOrder(nodes: seq<Node>, cs: seq<Candidate>, i: nat)
    requires i < |cs|
    ensures |Owners(nodes, cs)| == |NodeOwners(nodes)| + |cs|
    ensures Owners(nodes, cs)[|NodeOwners(nodes)| + i] == (cs[i].short, cs[i].key)
  {
    if i > 0 {
      OwnersInOrder(nodes, cs[1..], i - 1);
    } else {
      CandidateOwnersCount(cs);
    }
  }

  lemma {:induction false} CandidateOwnersCount(cs: seq<Candidate>)
    ensures |CandidateOwners(cs)| == |cs|
  {
    if cs != [] {
      CandidateOwnersCount(cs[1..]);
    }
  }

  /** A further name adds its edge behind those of the names before it, unless that edge is there already. */
  lemma {:induction false} EdgesSnoc(c: Candidate, shorts: seq<string>, short: string, owners: seq<(string, string)>,
      seen: set<string>, scan: string)
    ensures var edges := EdgesFrom(c, shorts, owners, seen, scan);
      var keys := KeysOf(owners, short);
      EdgesFrom(c, shorts + [short], owners, seen, scan)
        == edges + if |keys| == 1 && Depends(c, owners, scan, short, keys[0]) && keys[0] !in seen
                      && keys[0] !in edges
                   then keys else []
    decreases |shorts|
  {
    if shorts == [] {
      assert shorts + [short] == [short] && [short][1..] == [];
      assert EdgesFrom(c, [], owners, seen, scan) == [];
      var keys := KeysOf(owners, short);
      assert |keys| == 1 ==> keys == [keys[0]];
    } else {
      assert (shorts + [short])[1..] == shorts[1..] + [short];
      var first := KeysOf(owners, shorts[0]);
      var seen' := if Referenced(c, shorts[0], first, seen, scan) then seen + {first[0]} else seen;
      EdgesSnoc(c, shorts[1..], short, owners, seen', scan);
      hide KeysOf, Depends, Referenced;
    }
  }

  // ---------- the candidates in order ----------

  /** The artifacts that are not represented yet, in their order. */
  function Missing(arts: seq<Artifact>, leans: set<string>): seq<Artifact> {
    if arts == [] then []
    else if arts[0].name == "" || arts[0].name in leans then Missing(arts[1..], leans)
    else [arts[0]] + Missing(arts[1..], leans)
  }

  /** The candidate carries the artifact's name, span, kind and statement. */
  predicate Describes(c: Candidate, a: Artifact) {
    && c.lean == a.name && c.span == a.span && c.short == Short(a.name)
    && c.statement == StatementFor(a) && KindFits(a.keyword, a.kind, c.kind)
  }

  lemma CandidateDescribes(a: Artifact, taken: set<string>)
    ensures Describes(CandidateFor(a, taken), a)
  {
    hide KindFits, Short, StatementFor, FreshKey;
  }

  ghost predicate AllDescribe(cs: seq<Candidate>, ms: seq<Artifact>) {
    |cs| == |ms| && forall i :: 0 <= i < |cs| ==> Describes(cs[i], ms[i])
  }

  lemma DescribeCons(c: Candidate, cs: seq<Candidate>, a: Artifact, ms: seq<Artifact>)
    requires Describes(c, a) && AllDescribe(cs, ms)
    ensures AllDescribe([c] + cs, [a] + ms)
  {
    hide Describes;
  }

  /** One candidate for each of them, in that order. */
  lemma {:induction false} CandidatesInOrder(arts: seq<Artifact>, leans: set<string>, taken: set<string>)
    ensures AllDescribe(CandidatesFrom(arts, leans, taken), Missing(arts, leans))
    decreases |arts|
  {
    if arts != [] {
      var c := CandidateFor(arts[0], taken);
      CandidateDescribes(arts[0], taken);
      var taken' := if Skipped(arts[0], leans) then taken else taken + {c.key};
      CandidatesInOrder(arts[1..], leans, taken');
      hide Describes, CandidateFor, AllDescribe;
      DescribeCons(c, CandidatesFrom(arts[1..], leans, taken'), arts[0], Missing(arts[1..], leans));
    }
  }

  /** A warning names each of them whose declaration was not found. */
  lemma {:induction false} NotFoundIff(arts: seq<Artifact>, leans: set<string>, name: string)
    ensures name in NotFound(arts, leans) <==>
      exists a :: a in Missing(arts, leans) && a.name == name && a.keyword.None?
  {
    if arts != [] {
      NotFoundIff(arts[1..], leans, name);
    }
  }

  // ---------- what is read back ----------

  /** The artifacts the document does not represent yet. */
  function MissingFrom(existing: string, arts: seq<Artifact>): seq<Artifact> {
    Missing(arts, Leans(ParseNodes(existing)))
  }

  lemma EntriesDescribe(existing: string, arts: seq<Artifact>)
    ensures var es, ms := Entries(existing, arts), MissingFrom(existing, arts);
      && |es| == |ms|
      && (forall i :: 0 <= i < |es| ==> es[i].lean == ms[i].name && es[i].statement == StatementFor(ms[i]))
      && (forall i :: 0 <= i < |es| ==> KindFits(ms[i].keyword, ms[i].kind, es[i].kind))
  {
    var nodes := ParseNodes(existing);
    CandidatesInOrder(arts, Leans(nodes), KeySet(nodes));
    hide ParseNodes, KindFits, StatementFor, Leans, Missing, CandidatesFrom, Owners, EdgesFrom;
    var cs, ms := Candidates(existing, arts), MissingFrom(existing, arts);
    assert forall i :: 0 <= i < |cs| ==> Describes(cs[i], ms[i]);
  }

  lemma NewNodeAt(existing: string, arts: seq<Artifact>, i: nat)
    requires !EndsInBlankHeading(existing) && SectionsReadable(Entries(existing, arts))
    requires i < |Entries(existing, arts)|
    ensures var nodes := ParseNodes(Generated(existing, arts));
      && |nodes| == |ParseNodes(existing)| + |Entries(existing, arts)|
      && nodes[|ParseNodes(existing)| + i] == AsNode(Entries(existing, arts)[i])
  {
    hide ParseNodes, Entries, Generated, SectionsReadable, EndsInBlankHeading;
    GenerateIsAdditiveIff(existing, arts);
    var before, es := ParseNodes(existing), Entries(existing, arts);
    var settled := Settle(before, Unclosed(existing));
    assert |settled| == |before| && |AsNodes(es)| == |es|;
    assert (settled + AsNodes(es))[|before| + i] == AsNodes(es)[i] == AsNode(es[i]);
  }

  /** The node has the artifact's name and statement, and it is a definition, a theorem or a lemma as the
      artifact's keyword says, or else its kind. */
  ghost predicate Represents(n: Node, a: Artifact) {
    && n.lean == Some(a.name) && n.statement == StatementFor(a)
    && n.kind.Some? && KindFits(a.keyword, a.kind, n.kind.value)
  }

  /** The nodes behind the first `skip` represent these artifacts, one each. */
  ghost predicate RepresentedFrom(nodes: seq<Node>, skip: nat, ms: seq<Artifact>) {
    |nodes| == skip + |ms| && forall i :: 0 <= i < |ms| ==> Represents(nodes[skip + i], ms[i])
  }

  /** Read back, the new document represents every missing artifact, in order, behind the old nodes. */
  lemma NewNodesDescribe(existing: string, arts: seq<Artifact>)
    requires !EndsInBlankHeading(existing) && SectionsReadable(Entries(existing, arts))
    ensures RepresentedFrom(ParseNodes(Generated(existing, arts)), |ParseNodes(existing)|, MissingFrom(existing, arts))
  {
    var nodes, before := ParseNodes(Generated(existing, arts)), |ParseNodes(existing)|;
    var es, ms := Entries(existing, arts), MissingFrom(existing, arts);
    EntriesDescribe(existing, arts);
    hide ParseNodes, Entries, Generated, SectionsReadable, MissingFrom, KindFits, StatementFor, EndsInBlankHeading;
    forall i: nat | i < |es|
      ensures |nodes| == before + |es| && Represents(nodes[before + i], ms[i])
    {
      NewNodeAt(existing, arts, i);
    }
    hide Represents;
    if es == [] {
      NothingNew(existing, arts);
    } else {
      NewNodeAt(existing, arts, 0);
    }
  }

  lemma NothingNew(existing: string, arts: seq<Artifact>)
    requires Entries(existing, arts) == []
    ensures Generated(existing, arts) == existing
  {
    hide Entries;
  }
}
