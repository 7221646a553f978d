/** The model picker's rules in plain terms: which of two models is ranked first, which two are the
    same model, and exactly which models are suggested. */
module SuggestionRules {
  import opened Sorting
  import opened Suggestions
  import opened Text

  // ---------- the order ----------

  /** The position in the recently used list; a model outside comes behind all of it. */
  lemma {:induction false} IndexIs(xs: seq<string>, x: string)
    ensures IndexIn(xs, x) <= |xs| && forall n :: 0 <= n < IndexIn(xs, x) ==> xs[n] != x
    ensures IndexIn(xs, x) < |xs| ==> xs[IndexIn(xs, x)] == x
  {
    if xs != [] && xs[0] != x {
      IndexIs(xs[1..], x);
      assert forall n :: 0 < n < |xs| ==> xs[n] == xs[1..][n - 1];
    }
  }

  /** The recently used list names `a`, and up to there it does not name `b`. */
  ghost predicate UsedBefore(recent: seq<string>, a: string, b: string) {
    exists i :: 0 <= i < |recent| && recent[i] == a && forall n :: 0 <= n <= i ==> recent[n] != b
  }

  lemma UsedBeforeIff(recent: seq<string>, a: string, b: string)
    ensures UsedBefore(recent, a, b) <==> IndexIn(recent, a) < IndexIn(recent, b)
  {
    IndexIs(recent, a);
    IndexIs(recent, b);
  }

  function Date(m: Model): nat {
    if m.releasedAt != 0 then m.releasedAt else m.firstSeen
  }

  /** Only the first of the ranking's questions that tells two models apart decides. */
  ghost predicate RankedFirst(q: Request, a: Model, b: Model) {
    if (a.value == q.selected) != (b.value == q.selected) then a.value == q.selected
    else if UsedBefore(q.recent, a.value, b.value) || UsedBefore(q.recent, b.value, a.value) then
      UsedBefore(q.recent, a.value, b.value)
    else if (a.releasedAt != 0) != (b.releasedAt != 0) then a.releasedAt != 0
    else if (a.value in q.bundled) != (b.value in q.bundled) then a.value in q.bundled
    else if a.preview != b.preview then b.preview
    else if Date(a) != Date(b) then Date(a) > Date(b)
    else if (a.compatibility == Supported) != (b.compatibility == Supported) then a.compatibility == Supported
    else StringLe(a.value, b.value)
  }

  lemma IntsLeFrom(x: seq<int>, y: seq<int>, k: nat)
    requires |x| == |y| && k < |x|
    ensures IntsLe(x[k..], y[k..]) <==> if x[k] != y[k] then x[k] < y[k] else IntsLe(x[k + 1..], y[k + 1..])
  {
    assert x[k..][1..] == x[k + 1..] && y[k..][1..] == y[k + 1..];
  }

  lemma LexSeven(x: seq<int>, y: seq<int>)
    requires |x| == |y| == 7
    ensures IntsLe(x, y) <==>
      if x[0] != y[0] then x[0] < y[0]
      else if x[1] != y[1] then x[1] < y[1]
      else if x[2] != y[2] then x[2] < y[2]
      else if x[3] != y[3] then x[3] < y[3]
      else if x[4] != y[4] then x[4] < y[4]
      else if x[5] != y[5] then x[5] < y[5]
      else x[6] <= y[6]
  {
    assert x[0..] == x && y[0..] == y && IntsLe(x[7..], y[7..]);
    hide IntsLe;
    IntsLeFrom(x, y, 0);
    IntsLeFrom(x, y, 1);
    IntsLeFrom(x, y, 2);
    IntsLeFrom(x, y, 3);
    IntsLeFrom(x, y, 4);
    IntsLeFrom(x, y, 5);
    IntsLeFrom(x, y, 6);
  }

  /** The selected model comes first, then recently used ones as they were used, then those with a release date,
      bundled ones, those not in preview, the newest, the supported ones, and at last the order of the names. */
  lemma RankLeIff(q: Request, a: Model, b: Model)
    ensures RankLe(q, a, b) <==> RankedFirst(q, a, b)
  {
    UsedBeforeIff(q.recent, a.value, b.value);
    UsedBeforeIff(q.recent, b.value, a.value);
    var x, y := Rank(q, a), Rank(q, b);
    hide UsedBefore, IntsLe, StringLe, IndexIn;
    LexSeven(x, y);
    assert x == y <==> forall k :: 0 <= k < 7 ==> x[k] == y[k];
  }

  // ---------- the models that are ranked ----------

  /** A chosen or recently used model the catalog does not list gets a row that claims nothing. */
  ghost predicate Added(rows: seq<Model>, choices: seq<string>, providerFor: string -> string, m: Model) {
    && m.value in choices && m.value != "" && (forall r :: r in rows ==> r.value != m.value)
    && m == Model(m.value, providerFor(m.value), None, Unverified, Unknown, false, false, 0, 0)
  }

  lemma {:induction false} ChoicesAdd(rows: seq<Model>, choices: seq<string>, providerFor: string -> string, m: Model)
    ensures m in WithChoices(rows, choices, providerFor) <==> m in rows || Added(rows, choices, providerFor, m)
    decreases |choices|
  {
    if choices != [] {
      var c := choices[0];
      assert choices == [c] + choices[1..];
      assert Listed(rows, c) <==> exists r :: r in rows && r.value == c;
      if c == "" || Listed(rows, c) {
        ChoicesAdd(rows, choices[1..], providerFor, m);
      } else {
        var more := rows + [CustomRow(c, providerFor(c))];
        ChoicesAdd(more, choices[1..], providerFor, m);
        assert forall r :: r in more <==> r in rows || r == CustomRow(c, providerFor(c));
      }
    }
  }

  /** The models shown are the rows and the added ones, without the unsupported ones unless selected, by provider
      and then by name. */
  lemma ModelsAre(q: Request, rows: seq<Model>, providerFor: string -> string)
    requires DistinctValues(rows)
    ensures var models := Models(q, rows, providerFor);
      && (forall m :: m in models <==>
            && (m in rows || Added(rows, [q.selected] + q.recent, providerFor, m))
            && (m.compatibility == Unsupported ==> m.value == q.selected))
      && (forall i, j :: 0 <= i < j < |models| ==>
            if models[i].provider == models[j].provider then StringLe(models[i].value, models[j].value)
            else StringLe(models[i].provider, models[j].provider))
  {
    ModelsFacts(q, rows, providerFor);
    forall m
      ensures m in WithChoices(rows, [q.selected] + q.recent, providerFor)
        <==> m in rows || Added(rows, [q.selected] + q.recent, providerFor, m)
    {
      ChoicesAdd(rows, [q.selected] + q.recent, providerFor, m);
    }
    ByProviderPreorder();
    SortSorts(ByProvider, Filter((m: Model) => Offered(q, m), WithChoices(rows, [q.selected] + q.recent, providerFor)));
    hide WithChoices, Added, DistinctValues, StringLe, Filter, Sort;
  }

  // ---------- one model under two names ----------

  /** A model's canonical name, or else its value. */
  function NameOf(m: Model): string {
    if m.canonicalId.Some? then m.canonicalId.value else m.value
  }

  /** The name is taken without its provider in front. */
  lemma IdentityIs(m: Model)
    ensures forall rest :: NameOf(m) == m.provider + "/" + rest ==> Identity(m) == (m.provider, rest)
    ensures !(m.provider + "/" <= NameOf(m)) ==> Identity(m) == (m.provider, NameOf(m))
  {
    forall rest | NameOf(m) == m.provider + "/" + rest
      ensures Identity(m) == (m.provider, rest)
    {
      assert (m.provider + "/" + rest)[|m.provider + "/"|..] == rest;
    }
  }

  // ---------- exactly the suggestions ----------

  ghost predicate Chosen(q: Request, m: Model) {
    m.value == q.selected || m.value in q.recent
  }

  /** The same provider, and both released, both bundled, or neither. */
  ghost predicate Rivals(q: Request, a: Model, b: Model) {
    && a.provider == b.provider && (a.releasedAt != 0) == (b.releasedAt != 0)
    && (a.releasedAt == 0 ==> (a.value in q.bundled) == (b.value in q.bundled))
  }

  /** The suggestions ranked before a model that count against it. */
  ghost function RivalsBefore(q: Request, s: seq<Model>, m: Model): set<Model> {
    set x | x in s && Better(q, x, m) && !Chosen(q, x) && Rivals(q, x, m)
  }

  lemma CountsAgainst(q: Request, x: Model, m: Model)
    ensures !Pinned(q, x) && Group(q, x) == Group(q, m) <==> !Chosen(q, x) && Rivals(q, x, m)
  {
  }

  lemma {:induction false} GroupCount(q: Request, t: seq<Model>, m: Model)
    requires NoRepeats(t)
    ensures InGroup(q, t, Group(q, m)) == |set x | x in t && !Chosen(q, x) && Rivals(q, x, m)|
  {
    if t != [] {
      var front, last := Front(t), Last(t);
      GroupCount(q, front, m);
      CountsAgainst(q, last, m);
      assert last !in front;
      assert forall x :: x in t <==> x in front || x == last;
      hide Group, Rivals, Chosen, Pinned, NoRepeats;
      var before := set x | x in front && !Chosen(q, x) && Rivals(q, x, m);
      assert (set x | x in t && !Chosen(q, x) && Rivals(q, x, m))
        == if !Chosen(q, last) && Rivals(q, last, m) then before + {last} else before;
    }
  }

  lemma {:induction false} FilterNoRepeats<T>(p: T -> bool, xs: seq<T>)
    requires NoRepeats(xs)
    ensures NoRepeats(Filter(p, xs))
  {
    if xs != [] {
      var rest := Filter(p, xs[1..]);
      assert forall i :: 0 < i < |xs| ==> xs[i] == xs[1..][i - 1];
      FilterNoRepeats(p, xs[1..]);
      forall i | 0 <= i < |rest|
        ensures rest[i] != xs[0]
      {
        FilterMembers(p, xs[1..], rest[i]);
      }
      assert forall i :: 0 < i < |[xs[0]] + rest| ==> ([xs[0]] + rest)[i] == rest[i - 1];
    }
  }

  lemma AheadCounts(q: Request, s: seq<Model>, m: Model)
    requires NoRepeats(s)
    ensures InGroup(q, Ahead(q, s, m), Group(q, m)) == |RivalsBefore(q, s, m)|
    ensures forall x :: x in Ahead(q, s, m) <==> x in s && Better(q, x, m)
  {
    var p := (x: Model) => Better(q, x, m);
    FilterNoRepeats(p, s);
    GroupCount(q, Ahead(q, s, m), m);
    hide Better, Rivals, Chosen, InGroup, Group;
    forall x
      ensures x in Ahead(q, s, m) <==> x in s && Better(q, x, m)
    {
      FilterMembers(p, s, x);
    }
    assert RivalsBefore(q, s, m)
      == set x | x in Ahead(q, s, m) && !Chosen(q, x) && Rivals(q, x, m);
  }

  /** A model is suggested if and only if it is selected or neither retired, unavailable nor deprecated; no better
      suggestion is the same model; and it is chosen, or of a known provider, dated or bundled, with fewer than
      three better rivals when released and fewer than two otherwise. */
  lemma SuggestedExactly(q: Request, models: seq<Model>, m: Model)
    requires DistinctValues(models) && m in models
    ensures var s := Suggestions.Suggestions(q, models);
      m in s <==>
        && (m.value == q.selected || (m.availability != Retired && m.availability != Unavailable && !m.deprecated))
        && (forall x :: x in s && Better(q, x, m) ==> Identity(x) != Identity(m))
        && (m.value == q.selected || m.value in q.recent
            || (&& m.provider in ["openai", "anthropic", "gemini", "portkey"]
                && (m.releasedAt != 0 || m.value in q.bundled || m.firstSeen != 0)
                && |RivalsBefore(q, s, m)| < if m.releasedAt != 0 then 3 else 2))
  {
    var s := Suggestions.Suggestions(q, models);
    SuggestedIff(q, models, m);
    SuggestionsBalanced(q, models);
    SuggestionsDiffer(q, s);
    AheadCounts(q, s, m);
    var ahead := Ahead(q, s, m);
    assert HasIdentity(ahead, Identity(m)) <==> exists x :: x in ahead && Identity(x) == Identity(m);
    hide Suggestions.Suggestions, Better, Ahead, RivalsBefore, Identity, InGroup, Group, HasIdentity, DistinctValues;
  }

  lemma SuggestionsDiffer(q: Request, s: seq<Model>)
    requires forall i, j :: 0 <= i < j < |s| ==> Better(q, s[i], s[j])
    ensures NoRepeats(s)
  {
    forall i, j | 0 <= i < j < |s|
      ensures s[i] != s[j]
    {
      assert Better(q, s[i], s[j]);
    }
  }
}
