/** The blueprint generator: which nodes it adds for a project's formalized artifacts.  It is
    additive, adds nothing on a second run, and keeps the validator quiet. */
module BlueprintSeed {
  import opened Text
  import opened Blueprint
  import opened BlueprintBlocks
  import opened BlueprintDocument
  import LeanLexer

  /** A recorded artifact.  `keyword` and `span` are what the declaration lookup found for it, and
      `header` is its declaration header after the name; the lookup's regexes are parameters. */
  datatype Artifact = Artifact(
    name: string, keyword: Option<string>, span: string, header: string, kind: string)

  datatype Candidate = Candidate(
    key: string, lean: string, short: string, kind: string, statement: string, span: string)

  // ---------- fresh keys ----------

  function Numbered(base: string, n: nat): string {
    base + "_" + Decimal(n)
  }

  lemma NumberedInjective(base: string, m: nat, n: nat)
    requires Numbered(base, m) == Numbered(base, n)
    ensures m == n
  {
    assert Numbered(base, m)[|base| + 1..] == Decimal(m);
    assert Numbered(base, n)[|base| + 1..] == Decimal(n);
    DecimalInjective(m, n);
  }

  ghost function Tried(base: string, n: nat): set<string> {
    set i | 2 <= i < n :: Numbered(base, i)
  }

  lemma TriedGrows(base: string, n: nat)
    requires n >= 2
    ensures Numbered(base, n) !in Tried(base, n)
    ensures Tried(base, n + 1) == Tried(base, n) + {Numbered(base, n)}
  {
    if Numbered(base, n) in Tried(base, n) {
      var i :| 2 <= i < n && Numbered(base, i) == Numbered(base, n);
      NumberedInjective(base, i, n);
    }
  }

  function FreshFrom(base: string, taken: set<string>, n: nat): (key: string)
    requires n >= 2
    ensures key !in taken
    decreases taken - Tried(base, n)
  {
    TriedGrows(base, n);
    if Numbered(base, n) in taken then FreshFrom(base, taken, n + 1) else Numbered(base, n)
  }

  function FreshKey(base: string, taken: set<string>): (key: string)
    ensures key !in taken
  {
    var key := if base == "" then "node" else base;
    if key in taken then FreshFrom(base, taken, 2) else key
  }

  /** The search stops: only finitely many keys are taken and the numbered ones are distinct. */
  method UniqueKey(base: string, taken: set<string>) returns (key: string, taken': set<string>)
    ensures key == FreshKey(base, taken) && taken' == taken + {key}
  {
    key := if base == "" then "node" else base;
    var n := 2;
    while key in taken
      invariant n >= 2
      invariant FreshKey(base, taken) == if key in taken then FreshFrom(base, taken, n) else key
      decreases taken - Tried(base, n), key in taken
    {
      TriedGrows(base, n);
      key := Numbered(base, n);
      n := n + 1;
    }
    taken' := taken + {key};
  }

  ghost predicate IsFirstFree(base: string, taken: set<string>, k: nat) {
    k >= 2 && Numbered(base, k) !in taken && forall i :: 2 <= i < k ==> Numbered(base, i) in taken
  }

  /** The key is the plain name if that is free, and otherwise the first free numbered one. */
  lemma {:induction false} FreshFromIsFirst(base: string, taken: set<string>, n: nat)
    requires n >= 2 && forall i :: 2 <= i < n ==> Numbered(base, i) in taken
    ensures exists k: nat :: IsFirstFree(base, taken, k) && FreshFrom(base, taken, n) == Numbered(base, k)
    decreases taken - Tried(base, n)
  {
    TriedGrows(base, n);
    if Numbered(base, n) in taken {
      FreshFromIsFirst(base, taken, n + 1);
    } else {
      assert IsFirstFree(base, taken, n);
    }
  }

  lemma FreshKeyIsFirst(base: string, taken: set<string>)
    ensures var plain := if base == "" then "node" else base;
      var key := FreshKey(base, taken);
      if plain !in taken then key == plain
      else exists k: nat :: IsFirstFree(base, taken, k) && key == Numbered(base, k)
  {
    FreshFromIsFirst(base, taken, 2);
  }

  // ---------- kinds and statements ----------

  const KEYWORD_KIND := map[
    "theorem" := "theorem", "lemma" := "lemma", "def" := "definition", "abbrev" := "definition",
    "instance" := "definition", "structure" := "definition", "inductive" := "definition", "class" := "definition"]

  /** A definition box is for what these keywords declare. */
  predicate Defines(keyword: Option<string>) {
    keyword in [Some("def"), Some("abbrev"), Some("instance"), Some("structure"), Some("inductive"), Some("class")]
  }

  /** Without one of the eight keywords the artifact's own kind decides. */
  predicate Unnamed(keyword: Option<string>) {
    !Defines(keyword) && keyword != Some("theorem") && keyword != Some("lemma")
  }

  predicate KindFits(keyword: Option<string>, artifactKind: string, kind: string) {
    && (kind == "definition" <==> Defines(keyword) || (Unnamed(keyword) && artifactKind == "definition"))
    && (kind == "theorem" <==> keyword == Some("theorem"))
    && (kind == "lemma" <==> keyword == Some("lemma") || (Unnamed(keyword) && artifactKind != "definition"))
  }

  function KindFor(keyword: Option<string>, artifactKind: string): (kind: string)
    ensures ValidKind(kind)
    ensures KindFits(keyword, artifactKind, kind)
  {
    if keyword.Some? && keyword.value in KEYWORD_KIND then
      assert KEYWORD_KIND[keyword.value] in {"theorem", "lemma", "definition"};
      KEYWORD_KIND[keyword.value]
    else if artifactKind == "definition" then "definition"
    else "lemma"
  }

  function RStripAll(lines: seq<string>): seq<string> {
    if lines == [] then [] else [RStrip(lines[0])] + RStripAll(lines[1..])
  }

  function DropEmptyFront(lines: seq<string>): seq<string> {
    if lines != [] && lines[0] == "" then DropEmptyFront(lines[1..]) else lines
  }

  function DropEmptyBack(lines: seq<string>): seq<string> {
    if lines != [] && Last(lines) == "" then DropEmptyBack(Front(lines)) else lines
  }

  const SIGNATURE_CAP := 240

  function Signature(header: string): string {
    var lines := DropEmptyBack(DropEmptyFront(RStripAll(Lines(header))));
    if lines == [] then ""
    else
      var text := Join([LStrip(lines[0])] + lines[1..], "\n");
      RStrip(if |text| > SIGNATURE_CAP then text[..SIGNATURE_CAP] else text)
  }

  lemma {:induction false} EmptyBackKeepsFirst(lines: seq<string>)
    ensures DropEmptyBack(lines) <= lines
    ensures lines != [] && lines[0] != "" ==> DropEmptyBack(lines) != [] && DropEmptyBack(lines)[0] == lines[0]
    decreases |lines|
  {
    if lines != [] && Last(lines) == "" {
      EmptyBackKeepsFirst(Front(lines));
    }
  }

  lemma {:induction false} EmptyFrontGone(lines: seq<string>)
    ensures DropEmptyFront(lines) == [] || DropEmptyFront(lines)[0] != ""
    ensures forall l :: l in DropEmptyFront(lines) ==> l in lines
    decreases |lines|
  {
    if lines != [] && lines[0] == "" {
      EmptyFrontGone(lines[1..]);
    }
  }

  lemma {:induction false} RStripAllEnds(lines: seq<string>)
    ensures forall l :: l in RStripAll(lines) ==> l == "" || !IsSpace(Last(l))
  {
    if lines != [] {
      var _ := RStripSplits(lines[0]);
      RStripAllEnds(lines[1..]);
    }
  }

  lemma CutAndStrip(text: string)
    requires text != "" && !IsSpace(text[0])
    ensures Trimmed(RStrip(if |text| > SIGNATURE_CAP then text[..SIGNATURE_CAP] else text))
  {
    var cut := if |text| > SIGNATURE_CAP then text[..SIGNATURE_CAP] else text;
    var b := RStripSplits(cut);
    var r := RStrip(cut);
    if r != "" {
      assert r[0] == cut[0] == text[0];
    }
  }

  lemma LStripSolid(l: string)
    requires SolidEnd(l)
    ensures LStrip(l) != "" && !IsSpace(LStrip(l)[0])
  {
    assert !Blank(l) by { assert !IsSpace(l[|l| - 1]); }
    var a := LStripSplits(l);
  }

  /** An extracted signature has no whitespace at either end. */
  lemma SignatureTrimmed(header: string)
    ensures Trimmed(Signature(header))
  {
    var all := RStripAll(Lines(header));
    var front := DropEmptyFront(all);
    var lines := DropEmptyBack(front);
    RStripAllEnds(Lines(header));
    EmptyFrontGone(all);
    EmptyBackKeepsFirst(front);
    if lines != [] {
      assert lines[0] == front[0] && front[0] in front;
      LStripSolid(lines[0]);
      var first := [LStrip(lines[0])] + lines[1..];
      var text := Join(first, "\n");
      assert text[0] == first[0][0];
      CutAndStrip(text);
    }
  }

  function StatementFor(a: Artifact): string {
    if Signature(a.header) != "" then Signature(a.header) else "Formalized as `" + a.name + "`."
  }

  // ---------- candidates ----------

  function Short(name: string): string {
    Last(Split(name, '.'))
  }

  function Leans(nodes: seq<Node>): set<string> {
    set n | n in nodes && n.lean.Some? && n.lean.value != "" :: n.lean.value
  }

  predicate Skipped(a: Artifact, leans: set<string>) {
    a.name == "" || a.name in leans
  }

  function CandidateFor(a: Artifact, taken: set<string>): Candidate {
    Candidate(FreshKey(Short(a.name), taken), a.name, Short(a.name), KindFor(a.keyword, a.kind),
              StatementFor(a), a.span)
  }

  function CandidatesFrom(arts: seq<Artifact>, leans: set<string>, taken: set<string>): seq<Candidate> {
    if arts == [] then []
    else if Skipped(arts[0], leans) then CandidatesFrom(arts[1..], leans, taken)
    else
      var c := CandidateFor(arts[0], taken);
      [c] + CandidatesFrom(arts[1..], leans, taken + {c.key})
  }

  function SkippedCount(arts: seq<Artifact>, leans: set<string>): nat {
    if arts == [] then 0 else (if Skipped(arts[0], leans) then 1 else 0) + SkippedCount(arts[1..], leans)
  }

  function NotFound(arts: seq<Artifact>, leans: set<string>): seq<string> {
    if arts == [] then []
    else (if !Skipped(arts[0], leans) && arts[0].keyword.None? then [arts[0].name] else [])
         + NotFound(arts[1..], leans)
  }

  function Candidates(existing: string, arts: seq<Artifact>): seq<Candidate> {
    var nodes := ParseNodes(existing);
    CandidatesFrom(arts, Leans(nodes), KeySet(nodes))
  }

  /** What has been collected, followed by what the remaining artifacts give, is the result. */
  ghost predicate Collecting(
    arts: seq<Artifact>, i: nat, leans: set<string>, taken0: set<string>, taken: set<string>,
    candidates: seq<Candidate>, skipped: nat, warnings: seq<string>)
  {
    && i <= |arts|
    && candidates + CandidatesFrom(arts[i..], leans, taken) == CandidatesFrom(arts, leans, taken0)
    && skipped + SkippedCount(arts[i..], leans) == SkippedCount(arts, leans)
    && warnings + NotFound(arts[i..], leans) == NotFound(arts, leans)
  }

  lemma CollectStep(
    arts: seq<Artifact>, i: nat, leans: set<string>, taken0: set<string>, taken: set<string>,
    candidates: seq<Candidate>, skipped: nat, warnings: seq<string>)
    requires i < |arts| && Collecting(arts, i, leans, taken0, taken, candidates, skipped, warnings)
    ensures var a := arts[i]; var c := CandidateFor(a, taken);
      if Skipped(a, leans) then Collecting(arts, i + 1, leans, taken0, taken, candidates, skipped + 1, warnings)
      else if a.keyword.None? then
        Collecting(arts, i + 1, leans, taken0, taken + {c.key}, candidates + [c], skipped, warnings + [a.name])
      else Collecting(arts, i + 1, leans, taken0, taken + {c.key}, candidates + [c], skipped, warnings)
  {
    var a := arts[i];
    assert arts[i..][1..] == arts[i + 1..];
    if !Skipped(a, leans) {
      var c := CandidateFor(a, taken);
      Assoc(candidates, [c], CandidatesFrom(arts[i + 1..], leans, taken + {c.key}));
      Assoc(warnings, if a.keyword.None? then [a.name] else [], NotFound(arts[i + 1..], leans));
      assert warnings + [] == warnings;
    } else {
      assert [] + NotFound(arts[i + 1..], leans) == NotFound(arts[i + 1..], leans);
    }
  }

  method CollectCandidates(arts: seq<Artifact>, nodes: seq<Node>)
    returns (candidates: seq<Candidate>, skipped: nat, warnings: seq<string>)
    ensures candidates == CandidatesFrom(arts, Leans(nodes), KeySet(nodes))
    ensures skipped == SkippedCount(arts, Leans(nodes)) && warnings == NotFound(arts, Leans(nodes))
  {
    var leans, taken := Leans(nodes), KeySet(nodes);
    ghost var taken0 := taken;
    candidates, skipped, warnings := [], 0, [];
    var i: nat := 0;
    hide Collecting, CandidatesFrom, SkippedCount, NotFound, Leans, KeySet;
    while i < |arts|
      invariant i <= |arts| && Collecting(arts, i, leans, taken0, taken, candidates, skipped, warnings)
    {
      var a := arts[i];
      CollectStep(arts, i, leans, taken0, taken, candidates, skipped, warnings);
      i := i + 1;
      if Skipped(a, leans) {
        skipped := skipped + 1;
        continue;
      }
      if a.keyword.None? {
        warnings := warnings + [a.name];
      }
      var key, taken' := UniqueKey(Short(a.name), taken);
      candidates := candidates
        + [Candidate(key, a.name, Short(a.name), KindFor(a.keyword, a.kind), StatementFor(a), a.span)];
      taken := taken';
    }
  }

  // ---------- edges ----------

  /** Which keys answer to a short name: the existing nodes with a declaration, then the candidates. */
  function NodeOwners(nodes: seq<Node>): seq<(string, string)> {
    if nodes == [] then []
    else (if nodes[0].lean.Some? && nodes[0].lean.value != "" then [(Short(nodes[0].lean.value), nodes[0].key)] else [])
         + NodeOwners(nodes[1..])
  }

  function CandidateOwners(cs: seq<Candidate>): seq<(string, string)> {
    if cs == [] then [] else [(cs[0].short, cs[0].key)] + CandidateOwners(cs[1..])
  }

  function Owners(nodes: seq<Node>, cs: seq<Candidate>): seq<(string, string)> {
    NodeOwners(nodes) + CandidateOwners(cs)
  }

  function KeysOf(owners: seq<(string, string)>, short: string): seq<string> {
    if owners == [] then []
    else (if owners[0].0 == short then [owners[0].1] else []) + KeysOf(owners[1..], short)
  }

  /** The short names in the order they are first seen. */
  function ShortsIn(owners: seq<(string, string)>, seen: set<string>): seq<string> {
    if owners == [] then []
    else if owners[0].0 in seen then ShortsIn(owners[1..], seen)
    else [owners[0].0] + ShortsIn(owners[1..], seen + {owners[0].0})
  }

  predicate BoundaryAt(s: string, i: nat)
    requires i <= |s|
  {
    (i > 0 && LeanLexer.IsWord(s[i - 1])) != (i < |s| && LeanLexer.IsWord(s[i]))
  }

  /** The short name stands somewhere in the text with a word boundary on either side. */
  predicate Mentions(s: string, short: string) {
    exists i | 0 <= i <= |s| - |short| ::
      s[i..i + |short|] == short && BoundaryAt(s, i) && BoundaryAt(s, i + |short|)
  }

  predicate Referenced(c: Candidate, short: string, keys: seq<string>, seen: set<string>, scan: string) {
    short != c.short && |keys| == 1 && keys[0] != c.key && keys[0] !in seen && Mentions(scan, short)
  }

  function EdgesFrom(c: Candidate, shorts: seq<string>, owners: seq<(string, string)>, seen: set<string>, scan: string)
    : seq<string>
  {
    if shorts == [] then []
    else
      var keys := KeysOf(owners, shorts[0]);
      if Referenced(c, shorts[0], keys, seen, scan)
      then [keys[0]] + EdgesFrom(c, shorts[1..], owners, seen + {keys[0]}, scan)
      else EdgesFrom(c, shorts[1..], owners, seen, scan)
  }

  function EntryFor(c: Candidate, owners: seq<(string, string)>): Entry {
    Entry(c.key, c.kind, c.lean,
          EdgesFrom(c, ShortsIn(owners, {}), owners, {}, LeanLexer.StripComments(c.span, 0)), c.statement)
  }

  function EntriesFor(cs: seq<Candidate>, owners: seq<(string, string)>): (r: seq<Entry>)
    ensures |r| == |cs|
  {
    seq(|cs|, i requires 0 <= i < |cs| => EntryFor(cs[i], owners))
  }

  function Entries(existing: string, arts: seq<Artifact>): seq<Entry> {
    var cs := Candidates(existing, arts);
    EntriesFor(cs, Owners(ParseNodes(existing), cs))
  }

  /** The index from short names to keys, and its insertion order. */
  method IndexShorts(owners: seq<(string, string)>) returns (order: seq<string>, index: map<string, seq<string>>)
    ensures order == ShortsIn(owners, {})
    ensures forall s :: s in order ==> s in index && index[s] == KeysOf(owners, s)
  {
    order, index := [], map[];
    var i := 0;
    while i < |owners|
      invariant i <= |owners|
      invariant order == ShortsIn(owners[..i], {})
      invariant forall s :: s in order <==> s in index
      invariant forall s :: s in index ==> index[s] == KeysOf(owners[..i], s)
      invariant forall s :: s !in index ==> KeysOf(owners[..i], s) == []
    {
      var (short, key) := owners[i];
      assert owners[..i + 1] == owners[..i] + [owners[i]];
      forall s {
        KeysOfAppend(owners[..i], owners[i], s);
      }
      ShortsInAppend(owners[..i], owners[i], {});
      if short !in index {
        order := order + [short];
        index := index[short := [key]];
      } else {
        index := index[short := index[short] + [key]];
      }
      i := i + 1;
    }
    assert owners[..|owners|] == owners;
  }

  lemma {:induction false} KeysOfAppend(owners: seq<(string, string)>, p: (string, string), s: string)
    ensures KeysOf(owners + [p], s) == KeysOf(owners, s) + (if p.0 == s then [p.1] else [])
  {
    if owners == [] {
      assert owners + [p] == [p] && [p][1..] == [];
      assert KeysOf([], s) == [];
    } else {
      assert (owners + [p])[1..] == owners[1..] + [p];
      KeysOfAppend(owners[1..], p, s);
    }
  }

  lemma {:induction false} ShortsInAppend(owners: seq<(string, string)>, p: (string, string), seen: set<string>)
    ensures ShortsIn(owners + [p], seen) == ShortsIn(owners, seen)
      + (if p.0 in seen || p.0 in ShortsIn(owners, seen) then [] else [p.0])
    decreases owners
  {
    if owners == [] {
      assert owners + [p] == [p] && [p][1..] == [];
      assert ShortsIn([], seen + {p.0}) == [] && ShortsIn([], seen) == [];
    } else {
      assert (owners + [p])[1..] == owners[1..] + [p];
      ShortsInAppend(owners[1..], p, if owners[0].0 in seen then seen else seen + {owners[0].0});
    }
  }

  method DeriveUses(c: Candidate, order: seq<string>, index: map<string, seq<string>>,
      ghost owners: seq<(string, string)>)
    returns (uses: seq<string>)
    requires forall s :: s in order ==> s in index && index[s] == KeysOf(owners, s)
    ensures uses == EdgesFrom(c, order, owners, {}, LeanLexer.StripComments(c.span, 0))
  {
    var scan := LeanLexer.StripLeanComments(c.span);
    uses := [];
    var seen: set<string>, i := {}, 0;
    assert order[0..] == order;
    while i < |order|
      invariant i <= |order|
      invariant uses + EdgesFrom(c, order[i..], owners, seen, scan) == EdgesFrom(c, order, owners, {}, scan)
    {
      assert order[i..][1..] == order[i + 1..];
      assert order[i] in order;
      var keys := index[order[i]];
      if Referenced(c, order[i], keys, seen, scan) {
        seen := seen + {keys[0]};
        uses := uses + [keys[0]];
      }
      i := i + 1;
    }
  }

  // ---------- generate ----------

  function Generated(existing: string, arts: seq<Artifact>): string {
    var es := Entries(existing, arts);
    if es == [] then existing else NewText(existing, es)
  }

  method DeriveEntries(candidates: seq<Candidate>, order: seq<string>, index: map<string, seq<string>>,
                       ghost owners: seq<(string, string)>)
    returns (entries: seq<Entry>)
    requires order == ShortsIn(owners, {})
    requires forall s :: s in order ==> s in index && index[s] == KeysOf(owners, s)
    ensures entries == EntriesFor(candidates, owners)
  {
    entries := [];
    var i := 0;
    while i < |candidates|
      invariant i <= |candidates| && |entries| == i
      invariant forall k :: 0 <= k < i ==> entries[k] == EntryFor(candidates[k], owners)
    {
      var c := candidates[i];
      var uses := DeriveUses(c, order, index, owners);
      entries := entries + [Entry(c.key, c.kind, c.lean, uses, c.statement)];
      i := i + 1;
    }
  }

  method Generate(existing: string, arts: seq<Artifact>)
    returns (text: string, added: nat, skipped: nat, warnings: seq<string>)
    ensures text == Generated(existing, arts)
    ensures added == |Candidates(existing, arts)| && added + skipped == |arts|
    ensures warnings == NotFound(arts, Leans(ParseNodes(existing)))
  {
    var nodes := Parse(existing);
    var candidates;
    candidates, skipped, warnings := CollectCandidates(arts, nodes);
    AddedAndSkipped(arts, Leans(nodes), KeySet(nodes));
    var owners := Owners(nodes, candidates);
    var order, index := IndexShorts(owners);
    var entries := DeriveEntries(candidates, order, index, owners);
    added := |candidates|;
    text := existing;
    if candidates != [] {
      var fences := FenceCount(Lines(existing));
      var closer := if fences % 2 == 1 then "```\n\n" else "";
      text := RStrip(existing) + "\n\n" + closer + Join(Blocks(entries), "\n\n") + "\n";
    }
  }

  lemma {:induction false} AddedAndSkipped(arts: seq<Artifact>, leans: set<string>, taken: set<string>)
    ensures |CandidatesFrom(arts, leans, taken)| + SkippedCount(arts, leans) == |arts|
    decreases arts
  {
    if arts != [] {
      AddedAndSkipped(arts[1..], leans, taken);
      AddedAndSkipped(arts[1..], leans, taken + {CandidateFor(arts[0], taken).key});
    }
  }

  // ---------- keys are fresh and distinct ----------

  lemma {:induction false} CandidateKeysFresh(arts: seq<Artifact>, leans: set<string>, taken: set<string>)
    ensures forall c :: c in CandidatesFrom(arts, leans, taken) ==> c.key !in taken
    ensures DistinctKeys(CandidatesFrom(arts, leans, taken))
    decreases arts
  {
    if arts != [] {
      if Skipped(arts[0], leans) {
        CandidateKeysFresh(arts[1..], leans, taken);
      } else {
        var c := CandidateFor(arts[0], taken);
        var rest := CandidatesFrom(arts[1..], leans, taken + {c.key});
        CandidateKeysFresh(arts[1..], leans, taken + {c.key});
      }
    }
  }

  ghost predicate DistinctKeys(cs: seq<Candidate>) {
    forall i, j :: 0 <= i < j < |cs| ==> cs[i].key != cs[j].key
  }

  /** New keys collide with no existing node and not with each other. */
  lemma NewKeysFresh(existing: string, arts: seq<Artifact>)
    ensures var es := Entries(existing, arts);
      && (forall e :: e in es ==> e.key !in KeySet(ParseNodes(existing)))
      && (forall i, j :: 0 <= i < j < |es| ==> es[i].key != es[j].key)
  {
    var nodes, cs, es := ParseNodes(existing), Candidates(existing, arts), Entries(existing, arts);
    CandidateKeysFresh(arts, Leans(nodes), KeySet(nodes));
    assert forall i :: 0 <= i < |es| ==> es[i].key == cs[i].key && cs[i] in cs;
  }

  // ---------- every artifact ends up represented ----------

  ghost predicate Represents(cs: seq<Candidate>, name: string) {
    exists i :: 0 <= i < |cs| && cs[i].lean == name
  }

  lemma {:induction false} CandidatesCover(arts: seq<Artifact>, leans: set<string>, taken: set<string>, a: Artifact)
    requires a in arts && !Skipped(a, leans)
    ensures Represents(CandidatesFrom(arts, leans, taken), a.name)
    decreases arts
  {
    var cs := CandidatesFrom(arts, leans, taken);
    hide Skipped, FreshKey, StatementFor, KindFor;
    if Skipped(arts[0], leans) {
      CandidatesCover(arts[1..], leans, taken, a);
    } else if a == arts[0] {
      assert cs[0].lean == a.name;
    } else {
      var taken' := taken + {CandidateFor(arts[0], taken).key};
      CandidatesCover(arts[1..], leans, taken', a);
      var rest := CandidatesFrom(arts[1..], leans, taken');
      var i :| 0 <= i < |rest| && rest[i].lean == a.name;
      assert cs[i + 1] == rest[i];
    }
  }

  /** Made from some artifact that is not yet represented. */
  ghost predicate ComesFrom(c: Candidate, arts: seq<Artifact>, leans: set<string>) {
    exists a :: a in arts && !Skipped(a, leans) && c.lean == a.name && c.short == Short(a.name)
      && c.statement == StatementFor(a) && c.span == a.span && c.kind == KindFor(a.keyword, a.kind)
  }

  lemma {:induction false} CandidatesComeFrom(arts: seq<Artifact>, leans: set<string>, taken: set<string>, c: Candidate)
    requires c in CandidatesFrom(arts, leans, taken)
    ensures ComesFrom(c, arts, leans) && exists t :: c.key == FreshKey(c.short, t)
    decreases arts
  {
    var taken' := if Skipped(arts[0], leans) then taken else taken + {CandidateFor(arts[0], taken).key};
    if c in CandidatesFrom(arts[1..], leans, taken') {
      CandidatesComeFrom(arts[1..], leans, taken', c);
      var a :| a in arts[1..] && !Skipped(a, leans) && c.lean == a.name && c.short == Short(a.name)
        && c.statement == StatementFor(a) && c.span == a.span && c.kind == KindFor(a.keyword, a.kind);
      assert a in arts;
    } else {
      assert c == CandidateFor(arts[0], taken);
      assert arts[0] in arts;
    }
  }

  lemma {:induction false} NothingLeft(arts: seq<Artifact>, leans: set<string>, taken: set<string>)
    requires forall a :: a in arts ==> Skipped(a, leans)
    ensures CandidatesFrom(arts, leans, taken) == [] && SkippedCount(arts, leans) == |arts|
  {
    if arts != [] {
      assert arts[0] in arts;
      NothingLeft(arts[1..], leans, taken);
    }
  }

  /** What survives of the old nodes: all of them, or all but a last one with a blank key. */
  function KeptNodes(existing: string): seq<Node> {
    var before := ParseNodes(existing);
    if EndsInBlankHeading(existing) && before != [] then Front(before) else before
  }

  /** The nodes the old part of the new document gives, as the parser reads it back. */
  function OldPart(existing: string): seq<Node> {
    Settle(CutNodes(existing), Unclosed(existing))
  }

  lemma CutSurvives(existing: string)
    ensures Alike(KeptNodes(existing), CutNodes(existing))
    ensures KeptNodes(existing) == ParseNodes(existing) || ParseNodes(existing) == KeptNodes(existing) + [BLANK_NODE]
  {
    hide EndsInBlankHeading, Run, Flush, Lines, Split, RStrip, ParseNodes;
    TrailingSpace(existing);
    var before := ParseNodes(existing);
    if EndsInBlankHeading(existing) {
      assert before == Front(before) + [Last(before)];
    }
  }

  /** Up to statements, the old nodes survive, except a last one whose key is blank. */
  lemma OldPartSurvives(existing: string)
    ensures Alike(KeptNodes(existing), OldPart(existing))
    ensures KeptNodes(existing) == ParseNodes(existing) || ParseNodes(existing) == KeptNodes(existing) + [BLANK_NODE]
  {
    TrailingSpace(existing);
    CutSurvives(existing);
    CloseLastAlike(CutNodes(existing));
  }

  lemma CloseLastAlike(nodes: seq<Node>)
    ensures Alike(nodes, CloseLast(nodes))
  {
  }

  lemma LeansAlike(a: seq<Node>, b: seq<Node>)
    requires Alike(a, b)
    ensures Leans(a) <= Leans(b) && KeySet(a) == KeySet(b)
  {
    forall n | n in a
      ensures exists n' :: n' in b && n'.lean == n.lean && n'.key == n.key
    {
      var i :| 0 <= i < |a| && a[i] == n;
      assert b[i] in b;
    }
    forall n | n in b
      ensures exists n' :: n' in a && n'.key == n.key
    {
      var i :| 0 <= i < |b| && b[i] == n;
      assert a[i] in a;
    }
  }

  /** No declaration name is lost from the old part. */
  lemma OldLeansSurvive(existing: string)
    ensures Leans(ParseNodes(existing)) <= Leans(OldPart(existing))
  {
    OldPartSurvives(existing);
    LeansAlike(KeptNodes(existing), OldPart(existing));
  }

  lemma NewLeans(existing: string, arts: seq<Artifact>, a: Artifact)
    requires AllReadable(Entries(existing, arts)) && Entries(existing, arts) != []
    requires a in arts
    ensures Skipped(a, Leans(ParseNodes(Generated(existing, arts))))
  {
    var es, cs, before := Entries(existing, arts), Candidates(existing, arts), ParseNodes(existing);
    var now := ParseNodes(Generated(existing, arts));
    NewTextParses(existing, es);
    assert now == OldPart(existing) + AsNodes(es);
    OldLeansSurvive(existing);
    if a.name != "" {
      if a.name in Leans(before) {
        var n :| n in OldPart(existing) && n.lean == Some(a.name);
        assert n in now;
      } else {
        CandidatesCover(arts, Leans(before), KeySet(before), a);
        var i :| 0 <= i < |cs| && cs[i].lean == a.name;
        assert AsNodes(es)[i].lean == Some(a.name);
        assert AsNodes(es)[i] in now;
      }
    }
  }

  /** A second run on the same artifacts adds nothing and leaves the document as it is. */
  lemma SecondRunAddsNothing(existing: string, arts: seq<Artifact>)
    requires AllReadable(Entries(existing, arts))
    ensures Candidates(Generated(existing, arts), arts) == []
    ensures Generated(Generated(existing, arts), arts) == Generated(existing, arts)
  {
    var now := ParseNodes(Generated(existing, arts));
    if Entries(existing, arts) != [] {
      forall a | a in arts
        ensures Skipped(a, Leans(now))
      {
        NewLeans(existing, arts, a);
      }
      NothingLeft(arts, Leans(now), KeySet(now));
    }
  }

  // ---------- edges ----------

  lemma {:induction false} OwnerKeys(nodes: seq<Node>, cs: seq<Candidate>)
    ensures forall p :: p in NodeOwners(nodes) ==>
      exists n :: n in nodes && n.key == p.1 && n.lean.Some? && n.lean.value != ""
    ensures forall p :: p in CandidateOwners(cs) ==> exists c :: c in cs && c.key == p.1
    decreases |nodes| + |cs|
  {
    if nodes != [] {
      OwnerKeys(nodes[1..], cs);
      assert nodes[0] in nodes;
    } else if cs != [] {
      OwnerKeys(nodes, cs[1..]);
      assert cs[0] in cs;
    }
  }

  ghost predicate Owned(owners: seq<(string, string)>, key: string) {
    exists p :: p in owners && p.1 == key
  }

  lemma {:induction false} KeysAreOwned(owners: seq<(string, string)>, short: string)
    ensures forall k :: k in KeysOf(owners, short) ==> Owned(owners, k)
  {
    if owners != [] {
      KeysAreOwned(owners[1..], short);
      assert owners[0] in owners;
      forall k | k in KeysOf(owners[1..], short)
        ensures Owned(owners, k)
      {
        var p :| p in owners[1..] && p.1 == k;
        assert p in owners;
      }
    }
  }

  ghost predicate Distinct(keys: seq<string>) {
    forall i, j :: 0 <= i < j < |keys| ==> keys[i] != keys[j]
  }

  lemma {:induction false} EdgesAreOwned(c: Candidate, shorts: seq<string>, owners: seq<(string, string)>,
      seen: set<string>, scan: string)
    ensures forall u :: u in EdgesFrom(c, shorts, owners, seen, scan) ==> u != c.key && u !in seen && Owned(owners, u)
    ensures Distinct(EdgesFrom(c, shorts, owners, seen, scan))
    decreases shorts
  {
    if shorts != [] {
      var keys := KeysOf(owners, shorts[0]);
      if Referenced(c, shorts[0], keys, seen, scan) {
        KeysAreOwned(owners, shorts[0]);
        assert keys[0] in keys;
        EdgesAreOwned(c, shorts[1..], owners, seen + {keys[0]}, scan);
      } else {
        EdgesAreOwned(c, shorts[1..], owners, seen, scan);
      }
    }
  }

  /** A key that edges may point at: an old node with a declaration, or a new node. */
  ghost predicate IsTarget(key: string, nodes: seq<Node>, es: seq<Entry>) {
    || (exists n :: n in nodes && n.key == key && n.lean.Some? && n.lean.value != "")
    || (exists e :: e in es && e.key == key)
  }

  /** Every generated edge names an existing node other than its source, and none twice. */
  lemma EdgesResolve(existing: string, arts: seq<Artifact>)
    ensures var es := Entries(existing, arts);
      forall e :: e in es ==>
        && (forall u :: u in e.uses ==> u != e.key && IsTarget(u, ParseNodes(existing), es))
        && Distinct(e.uses)
  {
    var es, cs, nodes := Entries(existing, arts), Candidates(existing, arts), ParseNodes(existing);
    var owners := Owners(nodes, cs);
    OwnerKeys(nodes, cs);
    forall e | e in es
      ensures forall u :: u in e.uses ==> u != e.key && IsTarget(u, nodes, es)
      ensures Distinct(e.uses)
    {
      var i :| 0 <= i < |es| && es[i] == e;
      EdgesAreOwned(cs[i], ShortsIn(owners, {}), owners, {}, LeanLexer.StripComments(cs[i].span, 0));
      forall u | u in e.uses
        ensures IsTarget(u, nodes, es)
      {
        var p :| p in owners && p.1 == u;
        if p in CandidateOwners(cs) {
          var c :| c in cs && c.key == u;
          var j :| 0 <= j < |cs| && cs[j] == c;
          assert es[j] in es && es[j].key == u;
        }
      }
    }
  }

  /** The candidate's own code, without comments, mentions the short name of another declaration, and exactly
      one key answers to that name. */
  ghost predicate Depends(c: Candidate, owners: seq<(string, string)>, scan: string, short: string, key: string) {
    short != c.short && KeysOf(owners, short) == [key] && key != c.key && Mentions(scan, short)
  }

  lemma {:induction false} EdgesIff(c: Candidate, shorts: seq<string>, owners: seq<(string, string)>,
      seen: set<string>, scan: string, key: string)
    ensures key in EdgesFrom(c, shorts, owners, seen, scan) <==>
      key !in seen && exists i :: 0 <= i < |shorts| && Depends(c, owners, scan, shorts[i], key)
    decreases |shorts|
  {
    if shorts != [] {
      var keys := KeysOf(owners, shorts[0]);
      var referenced := Referenced(c, shorts[0], keys, seen, scan);
      EdgesIff(c, shorts[1..], owners, if referenced then seen + {keys[0]} else seen, scan, key);
      hide Mentions, KeysOf;
      assert forall i :: 1 <= i < |shorts| ==> shorts[i] == shorts[1..][i - 1];
      assert referenced && key == keys[0] ==> Depends(c, owners, scan, shorts[0], key) by {
        assert |keys| == 1 ==> keys == [keys[0]];
      }
    }
  }

  lemma {:induction false} ShortsCover(owners: seq<(string, string)>, seen: set<string>, short: string)
    requires KeysOf(owners, short) != [] && short !in seen
    ensures short in ShortsIn(owners, seen)
    decreases |owners|
  {
    if owners[0].0 != short {
      ShortsCover(owners[1..], if owners[0].0 in seen then seen else seen + {owners[0].0}, short);
    }
  }

  ghost predicate Mentioned(c: Candidate, owners: seq<(string, string)>, scan: string, key: string) {
    exists short :: Depends(c, owners, scan, short, key)
  }

  lemma MentionedIsEdge(c: Candidate, owners: seq<(string, string)>, scan: string, key: string)
    ensures key in EdgesFrom(c, ShortsIn(owners, {}), owners, {}, scan) <==> Mentioned(c, owners, scan, key)
  {
    var shorts := ShortsIn(owners, {});
    EdgesIff(c, shorts, owners, {}, scan, key);
    hide ShortsIn, Mentions, EdgesFrom;
    if Mentioned(c, owners, scan, key) {
      var short :| Depends(c, owners, scan, short, key);
      ShortsCover(owners, {}, short);
      var j :| 0 <= j < |shorts| && shorts[j] == short;
      assert Depends(c, owners, scan, shorts[j], key);
    }
  }

  /** A generated node depends on a key if and only if its own code mentions, outside comments, a short name
      other than its own that exactly that key answers to. */
  lemma EdgesMeanMentions(existing: string, arts: seq<Artifact>, i: nat, key: string)
    requires i < |Entries(existing, arts)|
    ensures var c := Candidates(existing, arts)[i];
      var owners := Owners(ParseNodes(existing), Candidates(existing, arts));
      key in Entries(existing, arts)[i].uses <==> Mentioned(c, owners, LeanLexer.StripComments(c.span, 0), key)
  {
    var cs := Candidates(existing, arts);
    var c, owners := cs[i], Owners(ParseNodes(existing), cs);
    hide Candidates, Owners, ShortsIn, Mentioned, EdgesFrom;
    MentionedIsEdge(c, owners, LeanLexer.StripComments(c.span, 0), key);
  }

  // ---------- validation stays quiet ----------

  lemma SeenCons(a: seq<string>, seen: set<string>)
    requires a != []
    ensures seen + {a[0]} + (set k | k in a[1..]) == seen + set k | k in a
  {
    assert forall k :: k in a <==> k == a[0] || k in a[1..];
  }

  lemma {:induction false} DuplicatesAppend(a: seq<string>, b: seq<string>, seen: set<string>)
    ensures Duplicates(a + b, seen) == Duplicates(a, seen) + Duplicates(b, seen + set k | k in a)
    decreases a
  {
    if a == [] {
      assert a + b == b && seen + (set k | k in a) == seen;
    } else {
      assert (a + b)[1..] == a[1..] + b;
      DuplicatesAppend(a[1..], b, seen + {a[0]});
      SeenCons(a, seen);
      Assoc(if a[0] in seen then [DuplicateKey(a[0])] else [], Duplicates(a[1..], seen + {a[0]}),
            Duplicates(b, seen + set k | k in a));
    }
  }

  lemma {:induction false} NoDuplicates(keys: seq<string>, seen: set<string>)
    requires forall k :: k in keys ==> k !in seen
    requires forall i, j :: 0 <= i < j < |keys| ==> keys[i] != keys[j]
    ensures Duplicates(keys, seen) == []
    decreases keys
  {
    if keys != [] {
      assert keys[0] in keys;
      forall k | k in keys[1..]
        ensures k !in seen + {keys[0]}
      {
        var i :| 0 <= i < |keys[1..]| && keys[1..][i] == k;
        assert keys[i + 1] == k && k in keys;
      }
      NoDuplicates(keys[1..], seen + {keys[0]});
    }
  }

  lemma {:induction false} NodeWarningsAppend(a: seq<Node>, b: seq<Node>, known: set<string>)
    ensures NodeWarnings(a + b, known) == NodeWarnings(a, known) + NodeWarnings(b, known)
  {
    if a == [] {
      assert a + b == b;
    } else {
      assert (a + b)[1..] == a[1..] + b;
      NodeWarningsAppend(a[1..], b, known);
      Assoc(KindWarnings(a[0]) + UseWarnings(a[0].key, a[0].uses, known), NodeWarnings(a[1..], known),
            NodeWarnings(b, known));
    }
  }

  lemma {:induction false} UsesKnown(key: string, uses: seq<string>, known: set<string>)
    requires forall u :: u in uses ==> u in known
    ensures UseWarnings(key, uses, known) == []
  {
    if uses != [] {
      assert uses[0] in uses;
      UsesKnown(key, uses[1..], known);
    }
  }

  lemma {:induction false} EntriesQuiet(es: seq<Entry>, known: set<string>)
    requires forall e :: e in es ==> ValidKind(e.kind) && forall u :: u in e.uses ==> u in known
    ensures NodeWarnings(AsNodes(es), known) == []
  {
    if es != [] {
      assert es[0] in es;
      UsesKnown(es[0].key, es[0].uses, known);
      EntriesQuiet(es[1..], known);
      NodesCons(es);
    }
  }

  /** A larger set of known keys reports no more uses. */
  lemma {:induction false} MoreKnown(key: string, uses: seq<string>, known: set<string>, known': set<string>)
    requires forall u :: u in uses && u in known ==> u in known'
    ensures forall w :: w in UseWarnings(key, uses, known') ==> w in UseWarnings(key, uses, known)
  {
    if uses != [] {
      assert uses[0] in uses;
      MoreKnown(key, uses[1..], known, known');
    }
  }

  lemma {:induction false} NodeWarningsShrink(a: seq<Node>, b: seq<Node>, known: set<string>, known': set<string>)
    requires Alike(a, b)
    requires forall n :: n in a ==> forall u :: u in n.uses && u in known ==> u in known'
    ensures forall w :: w in NodeWarnings(b, known') ==> w in NodeWarnings(a, known)
  {
    if a != [] {
      assert a[0] in a && b[0] == a[0].(statement := b[0].statement);
      MoreKnown(a[0].key, a[0].uses, known, known');
      assert Alike(a[1..], b[1..]);
      NodeWarningsShrink(a[1..], b[1..], known, known');
    }
  }

  lemma KeysAlike(a: seq<Node>, b: seq<Node>)
    requires Alike(a, b)
    ensures Keys(a) == Keys(b)
  {
  }

  lemma KeysAppend(a: seq<Node>, b: seq<Node>)
    ensures Keys(a + b) == Keys(a) + Keys(b) && KeySet(a + b) == KeySet(a) + KeySet(b)
  {
    assert forall n :: n in a + b <==> n in a || n in b;
  }

  lemma ParsedUses(text: string)
    ensures forall n :: n in ParseNodes(text) ==> forall u :: u in n.uses ==> UseOk(u)
  {
    LinesFree(text);
    RunWellRead(START, Lines(text));
    var s := Run(START, Lines(text));
    forall n | n in ParseNodes(text)
      ensures forall u :: u in n.uses ==> UseOk(u)
    {
      assert n in s.nodes || (s.current.Some? && n.uses == s.current.value.uses);
    }
  }

  lemma EntryKeys(es: seq<Entry>, taken: set<string>)
    requires forall e :: e in es ==> e.key !in taken
    requires forall i, j :: 0 <= i < j < |es| ==> es[i].key != es[j].key
    ensures Duplicates(Keys(AsNodes(es)), taken) == []
  {
    var keys := Keys(AsNodes(es));
    forall i | 0 <= i < |keys|
      ensures keys[i] == es[i].key && keys[i] !in taken
    {
      assert es[i] in es;
    }
    hide Keys, AsNodes, Duplicates;
    NoDuplicates(keys, taken);
  }

  /** The keys of the old part repeat no more than the old keys did. */
  lemma OldKeyWarnings(existing: string)
    ensures var keys := Keys(OldPart(existing));
      forall w :: w in Duplicates(keys, {}) ==> w in Duplicates(Keys(ParseNodes(existing)), {})
    ensures KeySet(OldPart(existing)) <= KeySet(ParseNodes(existing))
  {
    var kept, before := KeptNodes(existing), ParseNodes(existing);
    OldPartSurvives(existing);
    KeysAlike(kept, OldPart(existing));
    LeansAlike(kept, OldPart(existing));
    hide KeptNodes, OldPart, ParseNodes, Duplicates, Alike;
    if kept != before {
      KeysAppend(kept, [BLANK_NODE]);
      DuplicatesAppend(Keys(kept), Keys([BLANK_NODE]), {});
    }
  }

  lemma NewKeyWarnings(existing: string, arts: seq<Artifact>)
    requires Entries(existing, arts) != []
    ensures var es := Entries(existing, arts); var nodes := OldPart(existing) + AsNodes(es);
      forall w :: w in Duplicates(Keys(nodes), {}) ==> w in Duplicates(Keys(ParseNodes(existing)), {})
  {
    var es, now := Entries(existing, arts), OldPart(existing);
    NewKeysFresh(existing, arts);
    OldKeyWarnings(existing);
    hide Entries, OldPart, ParseNodes, Duplicates, Keys, AsNodes;
    KeysAppend(now, AsNodes(es));
    DuplicatesAppend(Keys(now), Keys(AsNodes(es)), {});
    KeySetIsKeys(now);
    var taken := {} + set k | k in Keys(now);
    assert taken == KeySet(now);
    EntryKeys(es, taken);
    assert Duplicates(Keys(now), {}) + [] == Duplicates(Keys(now), {});
  }

  /** The old nodes warn about no use they did not warn about before. */
  lemma OldNodesQuiet(existing: string, known': set<string>)
    requires KeySet(KeptNodes(existing)) <= known'
    ensures forall w :: w in NodeWarnings(OldPart(existing), known') ==>
      w in NodeWarnings(ParseNodes(existing), KeySet(ParseNodes(existing)))
  {
    var kept, before := KeptNodes(existing), ParseNodes(existing);
    var known := KeySet(before);
    OldPartSurvives(existing);
    ParsedUses(existing);
    if kept != before {
      KeysAppend(kept, [BLANK_NODE]);
      NodeWarningsAppend(kept, [BLANK_NODE], known);
      assert KeySet([BLANK_NODE]) == {""};
    }
    forall n | n in kept
      ensures forall u :: u in n.uses && u in known ==> u in known'
    {
      assert n in before;
    }
    NodeWarningsShrink(kept, OldPart(existing), known, known');
  }

  lemma NewNodeWarnings(existing: string, arts: seq<Artifact>)
    requires Entries(existing, arts) != [] && AllReadable(Entries(existing, arts))
    ensures var es := Entries(existing, arts); var nodes := OldPart(existing) + AsNodes(es);
      forall w :: w in NodeWarnings(nodes, KeySet(nodes)) ==>
        w in NodeWarnings(ParseNodes(existing), KeySet(ParseNodes(existing)))
  {
    var es := Entries(existing, arts);
    var kept, now := KeptNodes(existing), OldPart(existing);
    var known' := KeySet(now + AsNodes(es));
    OldPartSurvives(existing);
    KeysAppend(now, AsNodes(es));
    LeansAlike(kept, now);
    NodeWarningsAppend(now, AsNodes(es), known');
    EdgesResolve(existing, arts);
    TargetsKnown(existing, arts);
    EntriesQuiet(es, known');
    OldNodesQuiet(existing, known');
  }

  /** Every edge target is a key of the new document. */
  lemma TargetsKnown(existing: string, arts: seq<Artifact>)
    ensures var es := Entries(existing, arts);
      forall key :: IsTarget(key, ParseNodes(existing), es) ==> key in KeySet(OldPart(existing) + AsNodes(es))
  {
    var es := Entries(existing, arts);
    var kept, now := KeptNodes(existing), OldPart(existing);
    OldPartSurvives(existing);
    LeansAlike(kept, now);
    KeysAppend(now, AsNodes(es));
    forall key | IsTarget(key, ParseNodes(existing), es)
      ensures key in KeySet(now) + KeySet(AsNodes(es))
    {
      if n :| n in ParseNodes(existing) && n.key == key && n.lean.Some? && n.lean.value != "" {
        assert n in kept && key in KeySet(kept);
      } else {
        var e :| e in es && e.key == key;
        var i :| 0 <= i < |es| && es[i] == e;
        assert AsNodes(es)[i].key == key && AsNodes(es)[i] in AsNodes(es);
      }
    }
  }

  /** The validator reports nothing about the new document that it did not report about the old. */
  lemma ValidatorStaysQuiet(existing: string, arts: seq<Artifact>)
    requires AllReadable(Entries(existing, arts))
    ensures forall w :: w in Warnings(ParseNodes(Generated(existing, arts))) ==> w in Warnings(ParseNodes(existing))
  {
    var es := Entries(existing, arts);
    if es != [] {
      NewTextParses(existing, es);
      NewKeyWarnings(existing, arts);
      NewNodeWarnings(existing, arts);
    }
  }

  // ---------- the document, end to end ----------

  /** The old nodes come back unchanged, followed by exactly the candidates, if and only if the old
      text does not end in a heading with a blank key. */
  lemma GenerateIsAdditive(existing: string, arts: seq<Artifact>)
    requires AllReadable(Entries(existing, arts)) && Entries(existing, arts) != []
    ensures ParseNodes(Generated(existing, arts))
         == Settle(ParseNodes(existing), Unclosed(existing)) + AsNodes(Entries(existing, arts))
       <==> !EndsInBlankHeading(existing)
  {
    RoundTrip(existing, Entries(existing, arts));
  }

  /** For any artifacts, whatever their statements, every old node stays in place and unchanged, if and only if
      the old text does not end in a blank-key heading; the first new key only has to be one line and not blank. */
  lemma OldNodesSurvive(existing: string, arts: seq<Artifact>)
    requires Entries(existing, arts) != []
    requires '\n' !in Entries(existing, arts)[0].key && !Blank(Entries(existing, arts)[0].key)
    ensures Settle(ParseNodes(existing), Unclosed(existing)) <= ParseNodes(Generated(existing, arts))
      <==> !EndsInBlankHeading(existing)
  {
    OldNodesStayIff(existing, Entries(existing, arts));
  }

  /** No whitespace, comma or backtick. */
  predicate PlainName(name: string) {
    name != "" && forall i :: 0 <= i < |name| ==> !IsSpace(name[i]) && name[i] != ',' && name[i] != '`'
  }

  /** For plainly named artifacts, the entries are readable as soon as the keys of old nodes that can
      be edge targets are comma-free and the statements are inert. */
  lemma PlainNamesAreReadable(existing: string, arts: seq<Artifact>)
    requires forall a :: a in arts && a.name != "" ==>
      PlainName(a.name) && Inert(Split(StatementFor(a), '\n'), false)
    requires forall n :: n in ParseNodes(existing) && n.lean.Some? && n.lean.value != "" ==> UseOk(n.key)
    ensures AllReadable(Entries(existing, arts))
  {
    var es, cs, nodes := Entries(existing, arts), Candidates(existing, arts), ParseNodes(existing);
    forall e | e in es
      ensures ValidKind(e.kind) && KeyOk(e.key) && UseOk(e.key) && LeanOk(e.lean)
        && Trimmed(e.statement) && Inert(Split(e.statement, '\n'), false)
    {
      var i :| 0 <= i < |es| && es[i] == e;
      CandidatesComeFrom(arts, Leans(nodes), KeySet(nodes), cs[i]);
      var a :| a in arts && !Skipped(a, Leans(nodes)) && cs[i].lean == a.name && cs[i].short == Short(a.name)
        && cs[i].statement == StatementFor(a) && cs[i].span == a.span && cs[i].kind == KindFor(a.keyword, a.kind);
      var t :| cs[i].key == FreshKey(cs[i].short, t);
      PlainKey(a.name, t);
      StatementTrimmed(a);
    }
    EdgesResolve(existing, arts);
    forall e | e in es
      ensures forall u :: u in e.uses ==> UseOk(u)
    {
      forall u | u in e.uses
        ensures UseOk(u)
      {
        assert IsTarget(u, nodes, es);
      }
    }
  }

  lemma StatementTrimmed(a: Artifact)
    ensures Trimmed(StatementFor(a))
  {
    SignatureTrimmed(a.header);
  }

  lemma PlainFreshKey(short: string, taken: set<string>)
    requires short == "" || PlainName(short)
    ensures PlainName(FreshKey(short, taken))
  {
    FreshKeyIsFirst(short, taken);
    var plain := if short == "" then "node" else short;
    if plain in taken {
      var k: nat :| IsFirstFree(short, taken, k) && FreshKey(short, taken) == Numbered(short, k);
    }
  }

  lemma PlainKey(name: string, taken: set<string>)
    requires PlainName(name)
    ensures KeyOk(FreshKey(Short(name), taken)) && UseOk(FreshKey(Short(name), taken)) && LeanOk(name)
  {
    ShortStaysPlain(name);
    PlainFreshKey(Short(name), taken);
    hide FreshKey;
  }

  lemma CharsOfShort(name: string, i: nat)
    requires i < |Short(name)|
    ensures Short(name)[i] in name
  {
    var c := Short(name)[i];
    assert Short(name) in Split(name, '.');
    if c !in name {
      SplitKeepsChars(name, '.', c);
    }
  }

  lemma ShortStaysPlain(name: string)
    requires PlainName(name)
    ensures Short(name) == "" || PlainName(Short(name))
  {
    var short := Short(name);
    forall i | 0 <= i < |short|
      ensures !IsSpace(short[i]) && short[i] != ',' && short[i] != '`'
    {
      CharsOfShort(name, i);
    }
  }
}
